# Abilian SBE core, modelled in Dafny

Abilian SBE is a collaborative web platform. Communities have members, a document
repository, a forum, a wiki and an activity wall. This project models the sequential
server logic of that platform, and a few small browser-side state machines, as pure Dafny
functions over immutable data. It proves what the code promises.

Three things are kept abstract:

- Persistence. The database is replaced by values. The document repository is a map from
  ids to objects with parent links (`DocTree.Tree`). Community memberships and role
  assignments are sets and maps.
- Services the code calls. The security service, the mimetypes guesser, digests and
  signatures, `os.path.normpath`, date parsing and formatting, image resizing and the
  document converter are function parameters or boolean inputs.
- Time. Dates are integer seconds. The current time is an argument.

Where the repository holds two snapshots of a module (`abilian/...` and `src/abilian/...`),
each variant that differs is modelled on its own, and a lemma relates the two.

Modules, one per file:

- `Wrappers`: `Option` and `Result`.
- `Text`: Python string helpers (`strip`, `split`, `join`, `rfind`, `int()`, string order).
- `DocTree`: CMIS objects and the folder tree (documents/models.py): title and name
  synchronisation, paths, the ancestor chain, children, document counts and the path
  lookup.
- `Repository`: the content repository (documents/repository.py, both snapshots).
- `DocContent`: document content, the antivirus status and the document lock
  (documents/models.py, documents/lock.py).
- `DocViews`: the view helpers of documents/views/util.py (both snapshots).
- `Folders`: the folder views of documents/views/folders.py.
- `DocumentsViews`: the document views of documents/views/documents.py.
- `WebDav`: the WebDAV handlers of documents/webdav/views.py. Methods and statuses follow
  RFC 4918 (MKCOL section 9.3, PUT section 9.7, COPY and MOVE sections 9.8 and 9.9,
  the Overwrite header section 10.6). The handlers are modelled against the `Repository`
  instance they evidently mean; as written they reach a module instead (see "## Findings").
- `Cmis`: the CMIS AtomPub handlers of documents/cmis/atompub.py. Media types follow
  section 3.3 of the CMIS 1.0 specification.
- `Communities`: communities, memberships and the local roles they give
  (communities/models.py).
- `CommunitySecurity`: the access decorators and checks of communities/security.py (both
  snapshots).
- `CommunityEvents`: the counters kept up to date by the activity listener
  (communities/events.py).
- `CommunityBlueprint`: URL-prefix normalisation, pulling the community from the URL, and
  the access check before each request (communities/blueprint.py).
- `CommunityCommon`: the "how long ago" label and the viewers of an object
  (communities/common.py, both snapshots).
- `DocSignals`: the document application's handlers of the membership signals
  (documents/signals.py).
- `CommunityViews`: the community views (communities/views/views.py, and the older
  communities/views.py).
- `CommunityWizard`: the member-import wizard (communities/views/wizard.py).
- `ForumMail`: the signed reply-to address, `has_subtag`, the extraction of a post from an
  incoming mail, and the chunking of recipients (forum/tasks.py).
- `Sorting`: the stable sort by a descending key used by the forum.
- `ForumModels`: threads, posts, the `closed` flag and its guard, the name listeners and
  the frequent posters (forum/models.py).
- `ForumViews`: the period filter, `group_monthly`, `get_viewed_posts`, the close view and
  the attachment removal of forum/views.py.
- `Wiki`: wiki pages and the page form's filters and validators (wiki/models.py,
  wiki/forms.py, wiki/util.py).
- `Social`: the hashtags of a social message (social/models.py).
- `SocialDigest`: the daily social digest (notifications/tasks/social.py).
- `SocialGroups`: the group pages of social/views/groups.py.
- `WallPresenters`: the activity sentence and the excerpt of the wall
  (wall/presenters.py).
- `DataTable`: the DataTables paging, pager, sort comparators and advanced-search
  parameters (static/extranet/datatable.js, static/js/sbe-datatable.js).
- `DocumentViewer`: the preview viewer's pages and arrow keys (static/js/document_viewer.js,
  both snapshots).
- `FolderUpload`: the folder upload dialog (static/js/folder_upload.js, both snapshots).

## Model

| member | source | states |
|---|---|---|
| DocTree.NewObj | abilian/sbe/apps/documents/models.py:111-122 | A given title prevails over the name; a None or missing title falls back to the name; the resulting title equals the name |
| DocTree.SetTitle | abilian/sbe/apps/documents/models.py:130-136 | Setting the title sets the name to the same value and changes nothing else |
| DocTree.SetName | abilian/sbe/apps/documents/models.py:191-203 | Setting the name makes the listener copy it into the title |
| DocTree.SetTitleNameCommute | abilian/sbe/apps/documents/models.py:130-136 | Setting the title or the name to the same value gives the same object, so `title == name` holds either way |
| DocTree.IterToRoot | abilian/sbe/apps/documents/models.py:214-220 | `_iter_to_root` yields the object (unless skipped) and then every ancestor, each the parent of the one before, ending at a parentless root |
| DocTree.IterToRootSkip | abilian/sbe/apps/documents/models.py:214-220 | `skip_self=True` yields exactly the unskipped sequence without its first element |
| DocTree.IndexableParentIds | abilian/sbe/apps/documents/models.py:222-227 | The index string starts with "/" and joins the ancestor ids root first |
| DocTree.IndexableParentIdsRoundTrip | abilian/sbe/apps/documents/models.py:222-227 | Splitting the index string on "/" and parsing the ids gives back the ancestors, root first |
| DocTree.DepthIsAncestorCount | abilian/sbe/apps/documents/models.py:309-314 | `depth` equals the number of ancestors `_iter_to_root(skip_self=True)` yields |
| DocTree.PathIsSegments | abilian/sbe/apps/documents/models.py:161-166 | `path` is "" for a root and otherwise "/" plus the title for every object from just below the root down to the object |
| DocTree.Children | abilian/sbe/apps/documents/models.py:298-300 | `children` is the subfolders followed by the documents; an id is listed iff its parent is the folder, and none is listed twice |
| DocTree.DocumentCountLeaf | abilian/sbe/apps/documents/models.py:302-307 | A folder without subfolders counts exactly its own documents |
| DocTree.ChildNamedUnique | abilian/sbe/apps/documents/models.py:334-340 | With unique sibling titles, the child found under a title is the only child with that title |
| DocTree.GetObjectByPathAsWritten | abilian/sbe/apps/documents/models.py:327-341 | The lookup as written: AssertionError without a leading "/" or with "//"; "/" is the folder itself; a missing child raises StopIteration, and a segment left below a document raises AttributeError, since documents have no `children` |
| DocTree.AsWrittenMissRaises | abilian/sbe/apps/documents/models.py:336-341 | On a root without children, looking up "/x" raises instead of returning None |
| DocTree.GetObjectByPath | abilian/sbe/apps/documents/models.py:327-341 | The corrected lookup: same assertions, a missing segment gives None |
| DocTree.GetObjectByPathRepairsMiss | abilian/sbe/apps/documents/models.py:336-341 | The corrected lookup agrees with the written one wherever that one returns, and answers None exactly where it raises on a segment (StopIteration or AttributeError) |
| DocTree.DescendAsWritten | abilian/sbe/apps/documents/models.py:336-338 | The written descent fails only with StopIteration or AttributeError |
| DocTree.DescendRepairs | abilian/sbe/apps/documents/models.py:336-341 | The written descent succeeds exactly where the corrected one finds an object, and then reaches the same object |
| DocTree.AsWrittenPastDocumentRaises | abilian/sbe/apps/documents/models.py:298-300 | Under a root holding the document "doc", the written lookup of "/doc/x" raises AttributeError |
| DocTree.PathIsJoin | abilian/sbe/apps/documents/models.py:161-166 | A non-root path is "/" followed by the titles below the root joined with "/" |
| DocTree.PathLookupRoundTrip | abilian/sbe/apps/documents/models.py:327-341 | Looking an object's `path` up from its root finds the object, when titles are non-empty and hold no "/" |
| Repository.RootFolder | src/abilian/sbe/apps/documents/repository.py:30-38 | The root folder is a stored parentless folder, and one exists whenever any parentless folder is stored |
| Repository.GetObjectById | src/abilian/sbe/apps/documents/repository.py:56-64 | The object with that id, or None when nothing is stored under it |
| Repository.GetObject | src/abilian/sbe/apps/documents/repository.py:40-51 | A truthy id is looked up by id, else a non-empty path by path, else ValueError |
| Repository.GetObjectOld | abilian/sbe/apps/documents/repository.py:41-49 | A truthy id is looked up by id, otherwise the path is looked up as given; there is no dedicated error |
| Repository.GetObjectVariantsAgree | src/abilian/sbe/apps/documents/repository.py:40-51 | The two snapshots of `get_object` agree whenever an id or a non-empty path is supplied |
| Repository.FromRootAsWritten | abilian/sbe/apps/documents/models.py:336-341 | From the root, the corrected lookup answers None exactly where the lookup as written raises on a segment (StopIteration or AttributeError), and otherwise gives what the written one returns |
| Repository.GetByPathOfKind | src/abilian/sbe/apps/documents/repository.py:90-110 | `get_folder_by_path` and `get_document_by_path` give the object when the path finds one of the right kind, and None when it finds nothing or an object of the other kind |
| Repository.MoveObject | src/abilian/sbe/apps/documents/repository.py:124-129 | The object gets `dest_folder` as parent and is renamed only when a non-empty `dest_title` is given; nothing else changes |
| Repository.MoveObjectChildren | src/abilian/sbe/apps/documents/repository.py:124-129 | A move whose destination is not below the object keeps the tree well formed; the object becomes a child of the destination and stops being a child of its old parent |
| Repository.MoveIntoOwnSubtreeLoops | src/abilian/sbe/apps/documents/repository.py:124-129 | Moving an object below itself leaves it with no path to a root |
| Repository.RenameObject | src/abilian/sbe/apps/documents/repository.py:131-132 | Only the title (and the synchronised name) of the object changes |
| Repository.RenamePaths | src/abilian/sbe/apps/documents/repository.py:131-132 | After a rename the object's path ends with the new title, and the path of every object outside the renamed subtree is unchanged |
| Repository.DeleteObject | src/abilian/sbe/apps/documents/repository.py:134-143 | Deleting the root folder fails; otherwise the object and everything below it are removed |
| Repository.DeleteObjectWellFormed | abilian/sbe/apps/documents/repository.py:129-138 | Deleting keeps the tree well formed; the object leaves its parent's children and its siblings stay |
| Repository.RemoveSubtree | abilian/sbe/apps/documents/webdav/views.py:169-176 | The session-level delete removes the object and its subtree and leaves every other object as it was |
| Repository.RemoveSubtreeIsDeleteObject | src/abilian/sbe/apps/documents/repository.py:134-143 | For a non-root object, the session-level delete removes exactly what `delete_object` removes |
| Repository.CreateChild | abilian/sbe/apps/documents/models.py:316-325 | A new object of the requested kind under the folder, with a fresh id; a sibling with the same title makes creation fail |
| Repository.CreateChildWellFormed | abilian/sbe/apps/documents/models.py:316-325 | The created object is among its folder's children and the tree stays well formed |
| Repository.DocumentCountIsSubtree | abilian/sbe/apps/documents/models.py:302-307 | `document_count` of a folder is the number of documents anywhere in its subtree |
| Repository.CopyObject | src/abilian/sbe/apps/documents/repository.py:115-122 | A clone titled `dest_title` (or the original title) goes under the destination, every object below the source is cloned below the clone, and the source subtree is unchanged |
| Repository.CopyObjectWellFormed | src/abilian/sbe/apps/documents/repository.py:115-122 | A successful copy keeps the tree well formed |
| Repository.HasAccessChain | src/abilian/sbe/apps/documents/repository.py:169-177 | `has_access` holds iff READ holds on the object and on every ancestor except the parentless root |
| Repository.IsLocked | src/abilian/sbe/apps/documents/repository.py:148-149 | Nothing is ever locked |
| Repository.CanUnlock | src/abilian/sbe/apps/documents/repository.py:151-152 | Everything can be unlocked |
| DocContent.SetContentBytes | abilian/sbe/apps/documents/models.py:455-460 | Assigning content stores the bytes in a fresh blob, records their length, and (for a document) records a new antivirus task id and drops the PDF and text renderings |
| DocContent.FindContentType | abilian/sbe/apps/documents/models.py:475-506 | A specific type is returned unchanged; a generic one is replaced by the title-based guess unless there is no title or guess, or the guess is the ActiveX type |
| DocContent.FindContentTypeIdempotent | abilian/sbe/apps/documents/models.py:475-506 | Asking again with the answer gives the same answer |
| DocContent.SetContent | abilian/sbe/apps/documents/models.py:462-473 | Nothing changes when the digest is unchanged; otherwise digest and bytes are replaced and the refined type is stored when non-empty |
| DocContent.SetContentIdempotent | abilian/sbe/apps/documents/models.py:462-473 | Setting the same content twice is setting it once |
| DocContent.AntivirusTruthTable | abilian/sbe/apps/documents/models.py:593-623 | With the check configured, a document is accessible exactly when its scan found no virus; without it nothing is required and only a detected virus blocks |
| DocContent.NewContentUnscanned | abilian/sbe/apps/documents/models.py:626-631 | New content is unscanned: it requires the check when configured and is accessible only when the check is not configured |
| DocContent.EnsureAntivirusScheduled | abilian/sbe/apps/documents/models.py:573-591 | True when no check is needed; a required scan of a document without a content blob fails on both the eager and the scheduling path, since both `async_conversion` and the task-id lookup read the blob's metadata; with a blob, True when tasks run eagerly or the previous task has not failed, and otherwise a new task id is recorded and False is returned |
| DocContent.ScheduleSettles | abilian/sbe/apps/documents/models.py:573-591 | Once a task id is recorded and that task has not failed, a second call answers True and leaves the document unchanged; recording the id does not change whether a scan is required |
| DocContent.NewLock | abilian/sbe/apps/documents/lock.py:23-33 | A text date is parsed; a parse failure is ValueError |
| DocContent.LockRoundTrip | abilian/sbe/apps/documents/lock.py:39-52 | `from_dict(as_dict(l))` gives back user id, user and date |
| DocContent.Lifetime | abilian/sbe/apps/documents/lock.py:54-56 | The configured lifetime, 3600 seconds by default |
| DocContent.ExpiredMonotone | abilian/sbe/apps/documents/lock.py:58-60 | A lock has not expired when taken, and once expired it stays expired |
| DocContent.GetLock | abilian/sbe/apps/documents/models.py:686-698 | No stored lock or an expired one reads as None; otherwise the stored lock |
| DocContent.DeleteLock | abilian/sbe/apps/documents/models.py:712-721 | Deleting removes any stored lock and is safe when none is stored |
| DocContent.SetLock | abilian/sbe/apps/documents/models.py:723-734 | A live lock held by another user is a RuntimeError; otherwise the current user's new lock is stored |
| DocContent.AssignLock | abilian/sbe/apps/documents/models.py:700-710 | Assigning None releases the lock; assigning a user takes it |
| DocContent.SetLockThenGet | abilian/sbe/apps/documents/models.py:686-734 | Right after a successful `set_lock`, reading the lock gives the new lock; an absent or expired lock never blocks, and the holder can always renew |
| DocViews.BreadcrumbsFor | src/abilian/sbe/apps/documents/views/util.py:21-31 | No object gives no crumbs; otherwise the ancestors root first without the root, each linked, then the object unlinked |
| DocViews.GetNewFilename | src/abilian/sbe/apps/documents/views/util.py:58-84 | A free name is kept; a taken one becomes "stem-n.ext" with n one more than the largest numbered suffix, and the result is never taken |
| DocViews.NewFilenameNotTaken | abilian/sbe/apps/documents/views/util.py:52-77 | The renamed file name is free among the titles of the folder's children |
| DocViews.CreateDocument | src/abilian/sbe/apps/documents/views/util.py:87-100 | The write check comes first, an empty file name is ValueError, and the document is stored under a collision-free title |
| DocViews.CreateDocumentOld | abilian/sbe/apps/documents/views/util.py:80-108 | An empty file name gives None instead of an error |
| DocViews.CreateDocumentVariants | abilian/sbe/apps/documents/views/util.py:87-90 | The two snapshots differ only on an empty file name |
| DocViews.EditObject | src/abilian/sbe/apps/documents/views/util.py:121-133 | The result is True iff title or description differed; afterwards both equal the form values |
| DocViews.EditObjectIdempotent | src/abilian/sbe/apps/documents/views/util.py:121-133 | Submitting the same form again reports no change |
| DocViews.SelectedIdsFails | src/abilian/sbe/apps/documents/views/util.py:139-147 | Parsing the selection fails exactly when a selection of the kind has a non-integer id after its last ":" |
| DocViews.CheckReadAccess | src/abilian/sbe/apps/documents/views/util.py:158-173 | Missing object: NotFound; security off, admin or `has_access`: allowed; otherwise Forbidden |
| DocViews.CheckPermissionAccess | src/abilian/sbe/apps/documents/views/util.py:176-217 | As the read check, but `has_access` must come with WRITE (or MANAGE) |
| DocViews.WriteImpliesRead | src/abilian/sbe/apps/documents/views/util.py:158-217 | Whoever passes the write or manage check passes the read check |
| DocViews.GetSelectedObjects | src/abilian/sbe/apps/documents/views/util.py:136-155 | The selected folders and documents in selection order; any object that is not a direct child of the folder is InternalServerError |
| DocViews.SelectedObjectsRoundTrip | abilian/sbe/apps/documents/views/util.py:126-145 | A selection of readable children, written as the listing writes it, is returned unchanged |
| DocViews.LiteralMatch | src/abilian/sbe/apps/documents/views/util.py:220-227 | A pattern without "*" matches exactly the types it starts |
| DocViews.TrailingStarMatch | src/abilian/sbe/apps/documents/views/util.py:220-227 | A pattern ending in "*" matches whatever starts with the text before the star |
| DocViews.EmptyMimeIsBinary | abilian/sbe/apps/documents/views/util.py:203-210 | An empty type is matched as "application/binary" |
| Folders.CheckValidName | abilian/sbe/apps/documents/views/folders.py:813-849 | For "new" the name must be free among the object's children; for an edit, free among its siblings except its own title; other actions are InternalServerError; help text only when invalid |
| Folders.NewNameCreatable | abilian/sbe/apps/documents/views/folders.py:826-847 | A name is valid for "new" iff a child can be created under it |
| Folders.EditNameKeepsTitlesUnique | abilian/sbe/apps/documents/views/folders.py:829-847 | A name is valid for an edit iff giving it to the object keeps sibling titles unique |
| Folders.MoveSelected | abilian/sbe/apps/documents/views/folders.py:708-784 | Empty selection, non-integer target, same folder or missing permission change nothing; a target inside a moved folder is refused; one clash cancels the whole move; otherwise everything moves |
| Folders.MoveMultiple | abilian/sbe/apps/documents/views/folders.py:702-784 | The selection is parsed and checked before the move rules apply |
| Folders.MovedLeaveSource | abilian/sbe/apps/documents/views/folders.py:745-770 | After a move, the objects that left the source sit under the target, which lies below none of them |
| Folders.DeleteSelected | abilian/sbe/apps/documents/views/folders.py:671-697 | Documents are deleted first, then folders; the message is "No object deleted" for an empty selection and otherwise counts files, folders or both |
| Folders.DeleteMultiple | abilian/sbe/apps/documents/views/folders.py:666-699 | A write check, the selection, then the deletions; a selection without duplicates deletes everything and keeps the tree well formed |
| Folders.ExploreArchive | abilian/sbe/apps/documents/views/folders.py:530-572 | Without uncompress or for a non-zip, the file itself; otherwise one member per kept entry in archive order, whose directories and name join back into the entry name |
| Folders.KeptAppend | abilian/sbe/apps/documents/views/folders.py:520-527 | Filtering entries distributes over concatenation, so kept entries keep their order |
| Folders.SplitEntryRoundTrip | abilian/sbe/apps/documents/views/folders.py:564-570 | An entry made of directory names and a file name splits back into them |
| Folders.IgnoredExamples | abilian/sbe/apps/documents/views/folders.py:520-527 | Worked example, not a general claim: "__MACOSX/..." and ".DS_Store" at any depth and directory entries are skipped; ordinary files are kept |
| Folders.SlashFreeIgnored | abilian/sbe/apps/documents/views/folders.py:520-527 | A name without "/" is skipped only when it is exactly ".DS_Store" |
| Folders.SortByTitleSorted | abilian/sbe/apps/documents/views/folders.py:81-85 | Sorting by title gives a title-sorted permutation of its input |
| Folders.CrumbsBelowRoot | abilian/sbe/apps/documents/views/folders.py:90-100 | The breadcrumbs are the ancestors root first, the root skipped |
| Folders.FolderJson | abilian/sbe/apps/documents/views/folders.py:69-119 | Breadcrumbs root first without the root; a ".." entry for a non-root parent; then the readable subfolders sorted by title; selectable iff writable and the parent is not the root |
| Folders.FolderJsonSubfolders | abilian/sbe/apps/documents/views/folders.py:81-85 | After the ".." entry come exactly the readable subfolders, each under its own title |
| DocumentsViews.IntArg | abilian/sbe/apps/documents/views/documents.py:192 | A missing argument is 0; a present one is `int()` of it, and ValueError when `int()` refuses it |
| DocumentsViews.ClampPreviewSize | abilian/sbe/apps/documents/views/documents.py:37 | The size is at most 1000, and is kept when it already is |
| DocumentsViews.ClampIdempotent | abilian/sbe/apps/documents/views/documents.py:194-196 | Small algebraic check, not a general claim: clamping twice is clamping once |
| DocumentsViews.InlineIff | abilian/sbe/apps/documents/views/documents.py:128-136 | Without `attach`, a download is inline iff its type is non-empty and starts with text/plain, application/pdf or image/ |
| DocumentsViews.CheckinCheckout | abilian/sbe/apps/documents/views/documents.py:142-173 | Unknown actions are BadRequest; unlock removes the lock; lock and checkout set it (failing if someone else holds it); `updated_at` is kept; checkout serves an attachment |
| DocumentsViews.CheckoutThenUnlock | abilian/sbe/apps/documents/views/documents.py:142-173 | After a check-out the user holds the lock and gets an attachment; unlocking then leaves no lock and keeps `updated_at` |
| DocumentsViews.PreviewImageOf | abilian/sbe/apps/documents/views/documents.py:184-221 | Antivirus not OK gives the missing image; SVG is served as is; other images are resized; other types are converted per page; an empty image is the missing image |
| DocumentsViews.DocumentPreview | abilian/sbe/apps/documents/views/documents.py:276-289 | Antivirus not OK gives the waiting text; a PDF goes to the viewer; anything else to the download |
| DocumentsViews.PdfViewerDownloadInline | abilian/sbe/apps/documents/views/documents.py:276-289 | The PDF viewer's download is served inline |
| WebDav.OnlyAdmin | abilian/sbe/apps/documents/webdav/views.py:51-55 | Non-admins are Forbidden |
| WebDav.NormPath | abilian/sbe/apps/documents/webdav/views.py:64-68 | The normalised path starts with "/" |
| WebDav.DirBase | abilian/sbe/apps/documents/webdav/views.py:71-73 | The basename follows the last "/" and holds none; the dirname precedes it, trailing slashes removed |
| WebDav.DirBaseJoin | abilian/sbe/apps/documents/webdav/views.py:71-73 | For a path starting with "/" without "//", dirname and basename joined with one "/" give the path back |
| WebDav.GetObject | abilian/sbe/apps/documents/webdav/views.py:76-80 | A path that resolves to nothing is NotFound |
| WebDav.Mkcol | abilian/sbe/apps/documents/webdav/views.py:123-140 | A body is 415; an existing resource is 405; a missing parent is 409; otherwise a folder is created and the answer is 201 |
| WebDav.MkcolCreatesSubfolder | abilian/sbe/apps/documents/webdav/views.py:123-140 | A collection MKCOL creates is a new, empty subfolder of the parent, and the tree stays well formed |
| WebDav.Put | abilian/sbe/apps/documents/webdav/views.py:144-165 | An existing non-document is 405; an existing document gets the content and 204; a missing parent is 409; otherwise a new document and 201 |
| WebDav.PutWritesDocument | abilian/sbe/apps/documents/webdav/views.py:144-165 | Whatever PUT answers, the content lands in a document: the existing one, or a new child of the parent |
| WebDav.Delete | abilian/sbe/apps/documents/webdav/views.py:169-176 | A missing resource is NotFound; otherwise it is removed with its subtree and the answer is 204 |
| WebDav.CopyOrMove | abilian/sbe/apps/documents/webdav/views.py:180-212 | Missing header is TypeError; existing destination with Overwrite "F" is 412, else deleted first and 204; a missing destination parent is 409 with nothing changed; otherwise 201 |
| WebDav.Transfer | abilian/sbe/apps/documents/webdav/views.py:203-209 | COPY copies; MOVE renames when the destination folder is the parent and moves otherwise |
| WebDav.MoveLandsInFolder | abilian/sbe/apps/documents/webdav/views.py:203-209 | After a MOVE the source sits in the destination folder, under the destination name when that is non-empty |
| WebDav.Unlock | abilian/sbe/apps/documents/webdav/views.py:308-320 | A missing resource is NotFound; locked and not unlockable is 423; otherwise 204 |
| WebDav.UnlockWithStubs | abilian/sbe/apps/documents/webdav/views.py:308-320 | With the repository's locking stubs, UNLOCK of an existing resource is always 204 |
| WebDav.MissingPathRaisesAsWritten | abilian/sbe/apps/documents/webdav/views.py:76-80 | With the import of the repository instance corrected, GET-style lookup, DELETE and UNLOCK answer NotFound exactly where the path lookup as written raises on a segment (StopIteration or AttributeError); MKCOL or PUT creating something (201) or missing a parent (409) implies it raises |
| WebDav.NewDestinationRaisesAsWritten | abilian/sbe/apps/documents/webdav/views.py:180-200 | With the import of the repository instance corrected, a COPY or MOVE that answers 201 looked up a destination on which the lookup as written raises on a segment (StopIteration or AttributeError) |
| WebDav.Handle | abilian/sbe/apps/documents/webdav/views.py:123-212 | The modelled handlers behind one entry point, calling the repository instance: non-admins are Forbidden, the statuses are among 201, 204, 405, 409, 412 and 415, and DELETE and UNLOCK (with the locking stubs) answer only 204 |
| WebDav.HandleAsWritten | abilian/sbe/apps/documents/webdav/views.py:14 | As imported, `repository` is a module without the instance's methods: only the Forbidden of `only_admin`, MKCOL's 415 for a body and the TypeError of a missing Destination header are answered, and every other request raises AttributeError |
| WebDav.ImportRaises | abilian/sbe/apps/documents/webdav/views.py:14 | On every tree, path and request, the handlers as imported answer as the intended ones wherever they answer at all, and every answer the intended ones take from the repository (any status but 415, or NotFound) is AttributeError as imported |
| Cmis.OptionTextIsStrip | abilian/sbe/apps/documents/cmis/atompub.py:98 | An option's text is `args.get(k, "false").strip()` |
| Cmis.OptionValue | abilian/sbe/apps/documents/cmis/atompub.py:98-105 | "true" is True; "false" and "" are False; anything else raises naming the key |
| Cmis.GetOptions | abilian/sbe/apps/documents/cmis/atompub.py:92-106 | One boolean per entry of `BOOLEAN_OPTIONS`, each True iff its stripped text is "true"; the first invalid option in order raises |
| Cmis.NoOptionsAllFalse | abilian/sbe/apps/documents/cmis/atompub.py:95-106 | With no option given, every option is False |
| Cmis.GetObject | abilian/sbe/apps/documents/cmis/atompub.py:123-127 | NotFound unless the id names a stored object |
| Cmis.GetDocument | abilian/sbe/apps/documents/cmis/atompub.py:109-113 | NotFound unless the id names a document |
| Cmis.GetFolder | abilian/sbe/apps/documents/cmis/atompub.py:116-120 | NotFound unless the id names a folder |
| Cmis.GetObjectEntryPathAsWritten | abilian/sbe/apps/documents/cmis/atompub.py:200-220 | A path lookup answers NotFound exactly where the path lookup as written raises on a segment (StopIteration or AttributeError) |
| Cmis.GetObjectEntry | abilian/sbe/apps/documents/cmis/atompub.py:200-220 | Options are read first; a non-empty id is looked up by id, else a non-empty path by path, else NotFound; finding nothing is NotFound |
| Cmis.IdBeforePath | abilian/sbe/apps/documents/cmis/atompub.py:210-214 | With a non-empty id, the path plays no part |
| Cmis.GetOptionsSame | abilian/sbe/apps/documents/cmis/atompub.py:95-106 | The options depend only on the option keys |
| Cmis.DeleteEntry | abilian/sbe/apps/documents/cmis/atompub.py:238-261 | An unknown id is NotFound; otherwise the object and its subtree are removed |
| DocTree.DistinctCard | abilian/sbe/apps/documents/models.py:298-300 | A list without repetitions has as many members as entries |
| Cmis.ChildCount | abilian/sbe/apps/documents/models.py:298-300 | The length of `children` is the number of objects whose parent is the folder |
| Cmis.DeleteEntryChildCount | abilian/sbe/apps/documents/cmis/atompub.py:250-259 | The assertion holds: deleting a non-root object takes exactly one child from its parent |
| Cmis.ContentAsWritten | abilian/sbe/apps/documents/models.py:451-453 | Reading `content` without a blob is an AttributeError |
| Cmis.SetContentStreamAsWritten | abilian/sbe/apps/documents/cmis/atompub.py:278-292 | The handler as written fails on a document without content and answers 204 otherwise |
| Cmis.SetContentStreamFirstFails | abilian/sbe/apps/documents/cmis/atompub.py:283 | A document without content cannot get its first content stream |
| Cmis.SetContentStream | abilian/sbe/apps/documents/cmis/atompub.py:278-292 | The intended handler: 201 iff the document had no content, 204 otherwise; the document then holds the new bytes and type |
| Cmis.SetContentStreamSecondReplaces | abilian/sbe/apps/documents/cmis/atompub.py:278-292 | A second content stream is a replacement (204), and where the written handler succeeds it agrees with the intended one |
| Cmis.GetTypeDefinition | abilian/sbe/apps/documents/cmis/atompub.py:325-340 | A missing id is TypeError; the four base types are served; anything else is NotImplementedError |
| Cmis.TypeDefinitionRoundTrip | abilian/sbe/apps/documents/cmis/atompub.py:329-336 | Every base type's definition is served |
| Cmis.CreateObject | abilian/sbe/apps/documents/cmis/atompub.py:372-402 | A missing id is TypeError; the parent must be a folder; cmis:folder and cmis:document create a child of that kind; any other type raises |
| Cmis.CreatableTypes | abilian/sbe/apps/documents/cmis/atompub.py:386-398 | Only the folder and document base types can be created, and the object created has the requested type |
| Communities.RoleNamed | abilian/sbe/apps/communities/models.py:32-33 | The managed roles are exactly the ones named "reader", "writer", "manager" and "member"; "manager" and "member" name the Manager and Member roles |
| Communities.RolesOnMember | abilian/sbe/apps/communities/models.py:246-247 | A role is among the user's roles on the folder iff the user holds it directly; group roles do not count |
| Communities.LocalRole | abilian/sbe/apps/communities/models.py:241-244 | A manager membership gives Manager on the folder; any other gives Writer in a participative community and Reader otherwise |
| Communities.Reconcile | abilian/sbe/apps/communities/models.py:246-254 | The user ends up holding the local role; the local role is the only grant that can be added; only managed roles of the user can be removed |
| Communities.ReconcileEffect | abilian/sbe/apps/communities/models.py:246-254 | Afterwards the user's managed roles are exactly the local role; roles outside VALID_ROLES and other principals are untouched |
| Communities.ReconcileIdempotent | abilian/sbe/apps/communities/models.py:246-254 | Reconciling twice towards the same role is reconciling once |
| Communities.RemoveManaged | abilian/sbe/apps/communities/models.py:270-275 | Only grants are removed, and only managed roles of the user |
| Communities.RemoveManagedEffect | abilian/sbe/apps/communities/models.py:270-275 | Afterwards the user has no managed role; unmanaged roles and other principals are untouched |
| Communities.GetRole | abilian/sbe/apps/communities/models.py:297-308 | The role of the user's membership, and None exactly for a non-member |
| Communities.SetMembership | abilian/sbe/apps/communities/models.py:216-256 | A role outside VALID_ROLES is ValueError. Otherwise the membership gets the role; `is_new` holds iff the user was not a member, and the counter then grows by one; the user's managed folder roles become exactly the local role |
| Communities.SetMembershipInvariant | abilian/sbe/apps/communities/models.py:216-256 | `set_membership` keeps the counter equal to the number of memberships and every user's managed folder roles equal to what the memberships call for |
| Communities.SetMembershipIdempotent | abilian/sbe/apps/communities/models.py:216-256 | Repeating `set_membership` changes nothing more, and the repeat reports an existing membership |
| Communities.RemoveMembership | abilian/sbe/apps/communities/models.py:258-275 | A non-member is KeyError. Otherwise the membership goes, the counter drops by one, and the user keeps no managed folder role |
| Communities.RemoveMembershipInvariant | abilian/sbe/apps/communities/models.py:258-275 | `remove_membership` keeps the counter consistent and the folder in sync |
| Communities.SetThenRemove | abilian/sbe/apps/communities/models.py:216-275 | Adding a new member and removing them again restores the memberships, the counter and the user's managed folder roles |
| Communities.UpdateRolesOnFolder | abilian/sbe/apps/communities/models.py:277-295 | After the update the folder holds exactly one grant per member: the local role of the member's role. Every other assignment is gone, group ones included |
| Communities.UpdateRolesSyncs | abilian/sbe/apps/communities/models.py:277-295 | After `update_roles_on_folder` the folder is in sync with the memberships |
| Communities.Rename | abilian/sbe/apps/communities/models.py:203-207 | The community and its folder, when there is one, take the new name; nothing else changes |
| Communities.HasPermission | abilian/sbe/apps/communities/models.py:313-321 | An admin has every permission; a non-admin non-member has none |
| Communities.ManageIsFolderManager | abilian/sbe/apps/communities/models.py:313-321 | For a non-admin in an in-sync community, "manage" is granted iff the user holds Manager on the folder |
| Communities.MemberPermissions | abilian/sbe/apps/communities/models.py:313-321 | A plain member may read and write but not manage; making them a manager loses no permission |
| CommunitySecurity.RequireAdmin | src/abilian/sbe/apps/communities/security.py:17-26 | Only admins get through; everybody else is Forbidden |
| CommunitySecurity.RequireManage | abilian/sbe/apps/communities/security.py:25-38 | A refusal is always Forbidden |
| CommunitySecurity.RequireManageIff | src/abilian/sbe/apps/communities/security.py:29-41 | `require_manage` lets exactly admins and the community's managers through; plain members are refused |
| CommunitySecurity.HasAccess | src/abilian/sbe/apps/communities/security.py:60-79 | The user defaults to the current one and the community to the request's. The anonymous user has no access and an admin always has. Any other user has access iff the community exists and they are a member of it |
| CommunitySecurity.CheckAccess | abilian/sbe/apps/communities/security.py:51-53 | Forbidden exactly when `has_access` says no |
| CommunitySecurity.PermissionImpliesAccess | abilian/sbe/apps/communities/security.py:56-73 | Any community permission of a logged-in user implies access to the community |
| CommunitySecurity.AccessIsFolderRole | abilian/sbe/apps/communities/security.py:56-73 | For a non-admin in an in-sync community, access is holding some managed role on the community folder |
| CommunitySecurity.IsManager | src/abilian/sbe/apps/communities/security.py:82-103 | The anonymous user is no manager. The community comes from the context's object, else from the request; a missing one is AttributeError. Otherwise "manage", being the creator, or the admin role make a manager |
| CommunitySecurity.RequireManageIsManager | src/abilian/sbe/apps/communities/security.py:29-41 | Whoever passes `require_manage` on a community is a manager of it for `is_manager` |
| CommunityEvents.CountDelta | abilian/sbe/apps/communities/events.py:27-30 | The document counter changes by at most one per activity |
| CommunityEvents.UpdateCommunity | abilian/sbe/apps/communities/events.py:16-30 | An activity on a community only touches it. An activity targeting a community touches it, and for a document a "post" adds one and a "delete" removes one. Any other activity involves no community |
| CommunityEvents.PostThenDelete | abilian/sbe/apps/communities/events.py:26-30 | Posting a document and deleting it again restores the counter; other verbs leave it alone |
| CommunityBlueprint.Slashed | abilian/sbe/apps/communities/blueprint.py:30-31 | The prefix gets a "/" in front when it is empty or lacks one, and is otherwise kept |
| CommunityBlueprint.PrefixBeforeTrim | abilian/sbe/apps/communities/blueprint.py:27-37 | Before the trailing "/" is trimmed, the prefix lies under "/communities" |
| CommunityBlueprint.UrlPrefix | abilian/sbe/apps/communities/blueprint.py:26-41 | The final prefix lies under "/communities" and is the untrimmed one with at most one trailing "/" dropped |
| CommunityBlueprint.UrlPrefixWithRoute | abilian/sbe/apps/communities/blueprint.py:29-40 | With the route parameter, the prefix is "/communities/<string:community_id>" followed by the slashed given prefix, one trailing "/" dropped |
| CommunityBlueprint.UrlPrefixFixedPoint | abilian/sbe/apps/communities/blueprint.py:34-40 | Without the route parameter, a normalised prefix that does not end in "/" normalises to itself |
| CommunityBlueprint.PullCommunity | abilian/sbe/apps/communities/blueprint.py:60-78 | The "Communities" crumb comes first. Without `community_id` nothing else happens. An unknown slug is NotFound. Otherwise the value is consumed, the community becomes the request's, and its name is the next crumb |
| CommunityBlueprint.BeforeRequest | abilian/sbe/apps/communities/blueprint.py:49-52 | Outside a community nothing is checked; inside one, the request passes iff `has_access` holds for the current user |
| CommunityBlueprint.CommunityRequestNeedsMembership | abilian/sbe/apps/communities/blueprint.py:49-78 | A non-admin passes a community URL only for an existing community they are a member of |
| CommunityCommon.ElapsedSeconds | src/abilian/sbe/apps/communities/common.py:38-45 | The elapsed time that `timedelta` keeps, `days * 86400 + seconds`: the difference of the two times rounded down to a whole second |
| CommunityCommon.NewerLabelFor | src/abilian/sbe/apps/communities/common.py:40-62 | Splitting the elapsed seconds into days and seconds-in-the-day, as `timedelta` does, makes the newer tests give the label the elapsed time calls for. A negative difference counts as a negative number of days |
| CommunityCommon.ActivityTimeFormat | src/abilian/sbe/apps/communities/common.py:32-62 | No time gives "". Otherwise the label depends on the elapsed time: under a minute, the seconds and "s"; under an hour, the whole minutes and "m"; under a day, the whole hours and "h"; under 30 days or in the future, the days and "d". Older times give the month and day within the same year, and the month and year otherwise. A missing `now` means the current time |
| CommunityCommon.ActivityTimeFormatVariantsAgree | abilian/sbe/apps/communities/common.py:34-56 | The older variant, which tests `minutes < 1` and `minutes < 60` inside `days == 0` and prints `minutes % 60`, gives the same label as the newer one for every time |
| CommunityCommon.LabelsAgree | abilian/sbe/apps/communities/common.py:43-56 | For every split of a `timedelta`, the older and newer chains of tests produce the same label |
| CommunityCommon.ActivityLabelReadsBack | src/abilian/sbe/apps/communities/common.py:47-57 | For an elapsed time under 30 days, the label minus its unit letter parses back to the count it shows |
| CommunityCommon.Viewers | src/abilian/sbe/apps/communities/common.py:18-28 | Succeeds iff every view by a member other than the creator has at least one hit; otherwise `hits[-1]` raises IndexError. Every entry is a member other than the creator, and there are no more entries than views |
| CommunityCommon.ViewersExactly | src/abilian/sbe/apps/communities/common.py:19-27 | An entry is in the result iff some view by a member other than the creator gives it, with that view's latest hit |
| CommunityCommon.ObjectViewers | src/abilian/sbe/apps/communities/common.py:16-29 | A manager gets the member views. Anybody else gets `[]` in the newer variant and None in the older one (abilian/sbe/apps/communities/common.py:17-31 has no final return) |
| DocSignals.NewCommunityMember | abilian/sbe/apps/documents/signals.py:14-37 | Without a folder, nothing changes. Otherwise the member's managed roles on the folder become exactly the local role: Manager for a manager, else Writer in a participative community and Reader otherwise. Unmanaged roles and other principals' grants stay |
| DocSignals.RemoveCommunityMember | abilian/sbe/apps/documents/signals.py:40-57 | Without a folder, nothing changes. Otherwise the member loses every managed role on the folder; everything else stays |
| DocSignals.SetMembershipSignalNoOp | abilian/sbe/apps/communities/models.py:216-256 | `set_membership` has already reconciled the folder when it sends `membership_set`, so the handler changes nothing |
| DocSignals.RemoveMembershipSignalAgrees | abilian/sbe/apps/communities/models.py:258-275 | `remove_membership` leaves the same folder the handler alone would, and running the handler afterwards changes nothing |
| CommunityViews.SecondsSinceEpoch | abilian/sbe/apps/communities/views/views.py:53-56 | No datetime gives 0. Otherwise the result is the whole seconds since the epoch, truncated toward zero as `int()` truncates the float |
| CommunityViews.Get | abilian/sbe/apps/communities/views/views.py:105 | `kw.get(key)` is present iff the key is in the mapping, and then it is that key's value |
| CommunityViews.ResolveCommunityId | abilian/sbe/apps/communities/views/views.py:104-119 | For a community, its slug (or a mapping's "slug") overrides the keyword id. For another object, an id already present is kept. Otherwise it comes from a mapping's "community_slug" or from the object's community, when it has one. A falsy object leaves the keyword id |
| CommunityViews.DefaultViewKw | abilian/sbe/apps/communities/views/views.py:93-126 | It fails ("Cannot find community_id value") iff no id was resolved; otherwise the keywords with "community_id" set to the resolved id |
| CommunityViews.DefaultViewKwCases | abilian/sbe/apps/communities/views/views.py:107-124 | A community always gets its slug. Any other object keeps an id that is already present. Without an object, success iff the keywords already held an id |
| CommunityViews.DefaultViewKwIdempotent | abilian/sbe/apps/communities/views/views.py:93-126 | Giving the produced keywords back to `default_view_kw` returns them unchanged |
| CommunityViews.SortOrder | abilian/sbe/apps/communities/views/views.py:136-145 | The order is the stripped "sort" argument when it is not empty, else the session's order, else "alpha". It sorts by last activity iff the order is "activity" |
| CommunityViews.SortOrderSticky | abilian/sbe/apps/communities/views/views.py:145 | Once stored in the session, a later visit without a "sort" argument gets the same order |
| CommunityViews.IntField | abilian/sbe/apps/communities/views/views.py:376 | `int()` of a form field succeeds exactly where `Text.PyInt` accepts the text (an optional sign, ASCII digits with single underscores between them, surrounding whitespace below U+00A1), with its value; anything else is a ValueError |
| CommunityViews.MembersPost | abilian/sbe/apps/communities/views/views.py:365-404 | With no user, an error flash and nothing changed. Otherwise a success means: add/set-user-role applied `set_membership` with the lower-cased role, and delete applied `remove_membership`. "join" is announced iff the action is add, and "leave" iff it is delete |
| CommunityViews.MembersPostInvariant | abilian/sbe/apps/communities/models.py:216-275 | A successful post keeps the member counter consistent and the folder roles in sync with the memberships |
| CommunityViews.MembersPostEffect | abilian/sbe/apps/communities/views/views.py:378-398 | After a successful add/set the user is a member with the posted role; after a successful delete they are no member |
| CommunityViews.MembersPostGuards | abilian/sbe/apps/communities/views/views.py:392-394 | A membership row that belongs to another user gives InternalServerError. When the role field is present, both variants (abilian/sbe/apps/communities/views.py:357-395) agree |
| CommunityViews.CutTitle | abilian/sbe/apps/communities/views.py:426-429 | A stripped title of at most 31 characters is kept; a longer one is cut to 30 characters plus the suffix |
| CommunityViews.SheetTitle | abilian/sbe/apps/communities/views.py:426-429 | The sheet title never exceeds Excel's 31 characters. It equals the stripped title iff that fits, and otherwise keeps the first 30 characters |
| CommunityViews.SheetTitleAsWritten | abilian/sbe/apps/communities/views/views.py:437-440 | As written, a title that is too long comes out 33 characters long (30 plus a three-character mis-encoded ellipsis) |
| CommunityViews.SheetTitleAsWrittenTooLong | abilian/sbe/apps/communities/views/views.py:438-440 | A 32-character title gives a 33-character sheet title, over the 31-character limit the code's own comment states |
| CommunityViews.ClampWidth | abilian/sbe/apps/communities/views/views.py:480-486 | The width is clamped into [MIN_WIDTH, MAX_WIDTH] and unchanged when already inside |
| CommunityViews.Longest | abilian/sbe/apps/communities/views/views.py:477 | The result is the length of the longest line: no line is longer, and some line reaches it (0 for no lines) |
| CommunityViews.ColumnWidth | abilian/sbe/apps/communities/views/views.py:450-478 | A column is as wide as its header plus one or its widest cell, whichever is larger |
| CommunityViews.CellWidthSingleLine | abilian/sbe/apps/communities/views/views.py:476-477 | A cell without a line break is as wide as its text plus one |
| CommunityWizard.FileExtension | abilian/sbe/apps/communities/views/wizard.py:97 | The extension is the text after the last "."; it holds no "." |
| CommunityWizard.ReadRow | abilian/sbe/apps/communities/views/wizard.py:105-124 | A row is kept iff it has exactly four fields, a valid stripped email and a role that is "manager" or "member" in any letter case. A kept row is the four stripped fields, and the role keeps its case |
| CommunityWizard.SomesExactly | abilian/sbe/apps/communities/views/wizard.py:103-126 | An account is among the kept rows iff some row produced it |
| CommunityWizard.ReadRowsExactly | abilian/sbe/apps/communities/views/wizard.py:105-126 | `wizard_read_csv` returns exactly the accounts of the rows it accepts |
| CommunityWizard.WizardReadCsv | abilian/sbe/apps/communities/views/wizard.py:95-126 | A secured file name that does not end in "csv" gives no accounts; otherwise the result is the accepted rows |
| CommunityWizard.ReadCsvStripped | abilian/sbe/apps/communities/views/wizard.py:110-118 | Every account read has a stripped, valid email and an accepted role |
| CommunityWizard.CsvRoles | abilian/sbe/apps/communities/views/wizard.py:30-33 | The role map has exactly the CSV rows' emails as keys |
| CommunityWizard.ExistingEntries | abilian/sbe/apps/communities/views/wizard.py:54-62 | One "existing" entry per registered non-member, in query order, with that user's email and names. The role is the CSV role, or "member" for an email list. A user whose email has no CSV role is a KeyError |
| CommunityWizard.ExistingEntriesEmails | abilian/sbe/apps/communities/views/wizard.py:54-62 | The emails of the "existing" entries are exactly the users' emails |
| CommunityWizard.NewEntries | abilian/sbe/apps/communities/views/wizard.py:64-90 | Every "new" entry has an unknown email. For an email list it has empty names and the "member" role; for a CSV it is one of the CSV rows |
| CommunityWizard.NewCsvEntries | abilian/sbe/apps/communities/views/wizard.py:64-81 | A "new" CSV entry exists iff its row's email is unknown |
| CommunityWizard.WizardExtractData | abilian/sbe/apps/communities/views/wizard.py:26-92 | The already-member emails are the submitted emails that belong to members. The existing accounts are the registered non-members. Every "new" entry is unknown. An email list never fails |
| CommunityWizard.GroupsPartition | abilian/sbe/apps/communities/views/wizard.py:38-51 | The members, the registered non-members and the unknown emails are pairwise disjoint and together make up all the submitted (stripped) emails |
| CommunityWizard.ExtractGroups | abilian/sbe/apps/communities/views/wizard.py:36-51 | The sets the function builds step by step are exactly the three groups |
| CommunityWizard.EmailListNewEntries | abilian/sbe/apps/communities/views/wizard.py:82-90 | For an email list, every unknown email gets a "new" entry with empty names and the "member" role |
| CommunityWizard.WizardCheckData | abilian/sbe/apps/communities/views/wizard.py:159-191 | A non-empty email field is split on ",". Otherwise the CSV is read, and reading nothing sends the user back to step 1. The review page is shown only with a non-empty accounts list |
| CommunityWizard.WizardNewAccounts | abilian/sbe/apps/communities/views/wizard.py:212-220 | The existing-account map has exactly the "existing" emails as keys. The new accounts are exactly the "new" entries. Any other status is ignored |
| CommunityWizard.ExistingEmailsAppend | abilian/sbe/apps/communities/views/wizard.py:215-217 | The "existing" emails of a concatenation are the union of both parts' |
| CommunityWizard.NewAccountsOfExtracted | abilian/sbe/apps/communities/views/wizard.py:197-228 | Splitting the list step 2 produced gives the registered non-members as existing accounts, and only unknown emails as new ones |
| CommunityWizard.AddAll | abilian/sbe/apps/communities/views/wizard.py:248-275 | The memberships are added in turn; this fails exactly when some role is not a valid one |
| CommunityWizard.AddAllEffect | abilian/sbe/apps/communities/models.py:216-256 | After the additions every listed user is a member and earlier members remain. The counter and the folder roles stay consistent |
| CommunityWizard.ExistingItems | abilian/sbe/apps/communities/views/wizard.py:249-251 | Each existing account's user is looked up by email. A missing one fails `set_membership`'s isinstance assertion |
| CommunityWizard.NewItems | abilian/sbe/apps/communities/views/wizard.py:259-272 | Each new account creates a user with the next fresh id and joins with its role |
| CommunityWizard.WizardSaving | abilian/sbe/apps/communities/views/wizard.py:233-280 | With no accounts at all, nothing changes. An existing email without a user fails. Otherwise the existing users join, then the created ones |
| CommunityWizard.WizardSavingEffect | abilian/sbe/apps/communities/views/wizard.py:244-280 | After a successful save every existing account's user and every created user is a member. Earlier members remain and the community stays consistent |
| CommunityWizard.SavedMembers | abilian/sbe/apps/communities/views/wizard.py:248-275 | The users added in turn cover the existing accounts and all the fresh ids |
| ForumMail.BuildLocalPart | abilian/sbe/apps/forum/tasks.py:130-146 | It succeeds iff `name + "+" + uid` fits in 64 characters: as written, anything up to 64; corrected, under 64 so the "-" fits. A success is at most 64 characters, a prefix of the full local part, and begins with `name + "+" + uid`. It is the full local part whenever that fits. A failure is a ValueError |
| ForumMail.BuildReplyEmailAddress | abilian/sbe/apps/forum/tasks.py:149-167 | Succeeds exactly when the local part for the "P-locale-thread-user" uid can be built, and is that local part, "@" and the domain |
| ForumMail.LineEnd | abilian/sbe/apps/forum/tasks.py:177 | The end of the current line: no line break between the start and it |
| ForumMail.AngleAt | abilian/sbe/apps/forum/tasks.py:177 | `<(.*)>` cannot match at a position that holds no "<" |
| ForumMail.AngleSearch | abilian/sbe/apps/forum/tasks.py:177 | `re.search("<(.*)>")` finds nothing in a text without "<" |
| ForumMail.ExtractEmailDestination | abilian/sbe/apps/forum/tasks.py:170-190 | A decoded address is one whose local part is exactly the signed local part rebuilt from its name and uid |
| ForumMail.DecodeLocal | abilian/sbe/apps/forum/tasks.py:180-183 | Success only when the local part splits on its last "+" and equals the one `build_local_part` gives for that name and uid |
| ForumMail.CheckSigned | abilian/sbe/apps/forum/tasks.py:183-190 | The signature must match, else ValueError. The uid's first field must be "P", else AssertionError. The result is the remaining fields, and a matching signature with a "P" header always succeeds |
| ForumMail.LocalPartShape | abilian/sbe/apps/forum/tasks.py:130-146 | When the name and uid leave room, the local part is name, "+", uid, "-" and a prefix of the digest |
| ForumMail.ReplyAddressRoundTrip | abilian/sbe/apps/forum/tasks.py:149-190 | A reply address whose name and uid leave room for the "-" decodes to the locale, thread id and user id it was built from |
| ForumMail.ReplyUidFields | abilian/sbe/apps/forum/tasks.py:165 | The reply uid splits back on "-" into "P", the locale, the thread id and the user id |
| ForumMail.FieldsJoin | abilian/sbe/apps/forum/tasks.py:165 | Fields without separators, once joined with "-", split back into the same fields |
| ForumMail.DecodeAddress | abilian/sbe/apps/forum/tasks.py:176-183 | With the separators where the encoder put them, decoding an address amounts to checking its signature |
| ForumMail.DecodeLocalOf | abilian/sbe/apps/forum/tasks.py:180-181 | The last "+" and the last "-" of a built local part are the ones the encoder put there |
| ForumMail.FullWidthReplyRejected | abilian/sbe/apps/forum/tasks.py:138-144 | As written, a 55-character name with uid "P-fr-3-4" fills all 64 characters. The address loses its "-digest" and the decoder rejects it |
| ForumMail.FullWidthRejected | abilian/sbe/apps/forum/tasks.py:138-144 | When `name + "+" + uid` is exactly 64 characters, the truncated local part fails its own signature check |
| ForumMail.CorrectedReplyRoundTrip | abilian/sbe/apps/forum/tasks.py:130-190 | With the corrected check, every address that is built decodes back to its locale, thread id and user id |
| ForumMail.HasSubtag | abilian/sbe/apps/forum/tasks.py:193-200 | A subtag needs a "+" in the address |
| ForumMail.HasSubtagIff | abilian/sbe/apps/forum/tasks.py:193-200 | `has_subtag` holds iff some "+" precedes an "@", or the address has a "+" and no "@" |
| ForumMail.ReplyAddressHasSubtag | abilian/sbe/apps/forum/tasks.py:149-200 | Every reply address the forum builds has a subtag |
| ForumMail.ExtractContent | abilian/sbe/apps/forum/tasks.py:260-264 | With the marker present, the text before its last occurrence. Without it, `rfind` gives -1 and the last character is dropped |
| ForumMail.ContainsPrefix | abilian/sbe/apps/forum/tasks.py:367-371 | A text that contains the marker contains its first nine characters too |
| ForumMail.AddParagraph | abilian/sbe/apps/forum/tasks.py:277-282 | The result is stripped and starts with "<p>". It is the stripped post when that already starts with "<p>", and otherwise the stripped post wrapped in "<p>…</p>" |
| ForumMail.AddParagraphIdempotent | abilian/sbe/apps/forum/tasks.py:277-282 | `add_paragraph` is idempotent |
| ForumMail.Attachments | abilian/sbe/apps/forum/tasks.py:347-356 | An attachment comes from exactly each part that has a Content-Disposition header |
| ForumMail.Choose | abilian/sbe/apps/forum/tasks.py:366-378 | The HTML up to the marker when it holds the marker; else the plain text up to it; else the whole HTML when not empty; else the plain text |
| ForumMail.Process | abilian/sbe/apps/forum/tasks.py:336-383 | The post from the chosen source: HTML is sanitised, wrapped and cleaned; plain text is wrapped. The text is cut at the marker's first nine characters, and the attachments are returned alongside. A mail without the marker is accepted |
| ForumMail.ProcessPlainReply | abilian/sbe/apps/forum/tasks.py:370-372 | A plain-text reply with the marker becomes the wrapped text before the last occurrence of the marker's first nine characters |
| ForumMail.RecipientChunks | abilian/sbe/apps/forum/tasks.py:60-70 | The batches, concatenated, are the member ids in order. None is empty or holds more than 20, and the first holds just the first id |
| ForumMail.ChunkCount | abilian/sbe/apps/forum/tasks.py:63-67 | A chunk is sent exactly when the index is a multiple of 20 |
| ForumMail.FlattenAppend | abilian/sbe/apps/forum/tasks.py:66 | Sending one more batch appends its ids |
| ForumMail.ProcessEmail | abilian/sbe/apps/forum/tasks.py:387-430 | No subtag means the mail is skipped. An accepted mail carries the locale, thread id and user id its recipient decodes to |
| ForumMail.ReplyIsAccepted | abilian/sbe/apps/forum/tasks.py:149-200 | With the corrected check, a reply to an address the forum built is accepted for the thread and user it names |
| Sorting.Insert | abilian/sbe/apps/forum/views.py:148 | Inserting adds exactly the new element to the multiset |
| Sorting.InsertLast | abilian/sbe/apps/forum/views.py:148 | An element whose key is no larger than any other goes last, which keeps the sort stable |
| Sorting.InsertSorted | abilian/sbe/apps/forum/views.py:148 | Inserting into a sequence sorted by descending key keeps it sorted |
| Sorting.SortDesc | abilian/sbe/apps/forum/views.py:148 | The result is a permutation of the input |
| Sorting.SortDescSortedDesc | abilian/sbe/apps/forum/views.py:148 | `sorted(..., key=lambda t: -t.nb_views)` leaves the keys in non-increasing order |
| Sorting.SortDescSorted | abilian/sbe/apps/forum/models.py:67 | Sorting a sequence already in order returns it unchanged: ties keep their order, as Python's stable sort and `most_common` keep them |
| Sorting.SortedInit | abilian/sbe/apps/forum/views.py:148 | Dropping the last element of a sorted sequence leaves it sorted, with every key at least the last one |
| Sorting.SortDescElements | abilian/sbe/apps/forum/views.py:148 | The sort keeps the length and exactly the same elements |
| ForumModels.SetClosed | abilian/sbe/apps/forum/models.py:94-97 | After setting, `closed` reads the value set; nothing else of the thread changes |
| ForumModels.NewThreadOpen | abilian/sbe/apps/forum/models.py:89-92 | With no flag stored, a thread is open. Closing and then reopening it reads back each time |
| ForumModels.Guard | abilian/sbe/apps/forum/models.py:194-204 | A post without a thread passes. Otherwise the change fails with ThreadClosedError iff the thread is closed |
| ForumModels.AppendPost | abilian/sbe/apps/forum/models.py:194-204 | Appending fails iff the thread is closed; otherwise the post is added at the end |
| ForumModels.RemovePost | abilian/sbe/apps/forum/models.py:194-204 | Removing fails iff the thread is closed; otherwise exactly that post is removed |
| ForumModels.ReplacePosts | abilian/sbe/apps/forum/models.py:194-204 | Replacing the collection fails iff the thread is closed |
| ForumModels.PostSetThread | abilian/sbe/apps/forum/models.py:182-189 | Moving a post to another existing thread gives it that thread's name. Moving it to the same thread or to none keeps its name. Only the name and the thread change |
| ForumModels.CreatePost | abilian/sbe/apps/forum/models.py:99-106 | A closed thread raises ThreadClosedError. Otherwise the new post, named after the thread and attached to it, is appended |
| ForumModels.RenamePosts | abilian/sbe/apps/forum/models.py:172-180 | Every post gets the new name and nothing else changes |
| ForumModels.NameSetEffect | abilian/sbe/apps/forum/models.py:72-79 | Setting the name sets the title to the same value. It renames every post iff the name changes, and touches nothing else |
| ForumModels.RenameTwice | abilian/sbe/apps/forum/models.py:176-179 | Renaming the posts twice to one name is renaming them once |
| ForumModels.TitleSetIsNameSet | abilian/sbe/apps/forum/models.py:72-79 | Setting the title has exactly the effect of setting the name: the synchronisation runs both ways without looping |
| ForumModels.NameSetSynced | abilian/sbe/apps/forum/models.py:110-118 | Renaming or retitling keeps a thread's name, title and post names in agreement |
| ForumModels.CreatePostSynced | abilian/sbe/apps/forum/models.py:99-106 | Creating a post keeps the thread's names in agreement |
| ForumModels.Creators | abilian/sbe/apps/forum/models.py:66 | One creator per post, in order |
| ForumModels.Distinct | abilian/sbe/apps/forum/models.py:66 | The counter's keys: exactly the posters, each once |
| ForumModels.Counted | abilian/sbe/apps/forum/models.py:66 | `Counter(...)`: each distinct poster with their number of posts |
| ForumModels.Without | abilian/sbe/apps/forum/models.py:68-70 | The posters other than the given one, in order |
| ForumModels.Items | abilian/sbe/apps/forum/models.py:68-70 | The posters of the ranked pairs, in order |
| ForumModels.RankingFacts | abilian/sbe/apps/forum/models.py:64-67 | The ranking lists every poster of a reply once, with their reply count, and the counts never increase |
| ForumModels.CountedEntries | abilian/sbe/apps/forum/models.py:66 | The counter's entries are the posters with their counts, each once |
| ForumModels.RankedFacts | abilian/sbe/apps/forum/models.py:67 | Rearranging the counter keeps its entries and their uniqueness |
| ForumModels.FrequentPostersRanked | abilian/sbe/apps/forum/models.py:64-71 | At most `limit` distinct posters of replies, never the thread's creator. Any other poster left out has no more replies than any returned. A limit of at least the number of posters returns them all |
| ForumModels.TopRanked | abilian/sbe/apps/forum/models.py:67-70 | Keeping the first n ranked posters without the creator has those properties |
| ForumModels.TopBeats | abilian/sbe/apps/forum/models.py:67-70 | A poster who made the cut has at least as many replies as one who did not |
| ForumModels.NoDupOnce | abilian/sbe/apps/forum/models.py:66 | An element of a sequence without repetitions occurs there once |
| ForumModels.TwiceInMultiset | abilian/sbe/apps/forum/models.py:66 | An element at two positions occurs at least twice |
| ForumModels.InTop | abilian/sbe/apps/forum/models.py:67 | A poster ranked within the first n is among the first n |
| ForumViews.FilterDays | abilian/sbe/apps/forum/views.py:127-138 | "today", "week", "month" and "year" select 1, 7, 31 and 365 days. No filter or an empty one selects no period. Any other name is a BadRequest |
| ForumViews.CreatedAfter | abilian/sbe/apps/forum/views.py:140-142 | Exactly the threads created after the cutoff, in order |
| ForumViews.ByViews | abilian/sbe/apps/forum/views.py:148 | Each thread is keyed by its number of views |
| ForumViews.Rows | abilian/sbe/apps/forum/views.py:148 | The keys are dropped, keeping the order |
| ForumViews.Index | abilian/sbe/apps/forum/views.py:119-151 | An unknown filter is a BadRequest. Without a period, the first `MAX_THREADS` (30) threads, and `has_more` iff there are more. With a period, the threads created within it, most viewed first, and no `has_more` |
| ForumViews.ByPeriodListing | abilian/sbe/apps/forum/views.py:140-148 | The period listing holds exactly the threads created after the cutoff, each as often as it occurs, and view counts never increase along it |
| ForumViews.RowsKeepElements | abilian/sbe/apps/forum/views.py:148 | Dropping the keys of the sorted rows gives a permutation of the rows, ordered by views |
| ForumViews.PermRows | abilian/sbe/apps/forum/views.py:148 | Rearranging keyed rows rearranges the rows |
| ForumViews.PermStep | abilian/sbe/apps/forum/views.py:148 | Removing the same element from two permutations of each other leaves permutations |
| ForumViews.RowsSplit | abilian/sbe/apps/forum/views.py:148 | Putting the removed element back keeps the permutation |
| ForumViews.RemoveAt | abilian/sbe/apps/forum/views.py:148 | Removing position k removes exactly that element from the multiset |
| ForumViews.RowsConcat | abilian/sbe/apps/forum/views.py:148 | Dropping keys distributes over concatenation |
| ForumViews.GroupMonthlyGroups | abilian/sbe/apps/forum/views.py:167-183 | The groups concatenate back to the input. Each is a non-empty run of a single month, and neighbouring groups are for different months, as `itertools.groupby` makes them |
| ForumViews.GroupMonthlyMembers | abilian/sbe/apps/forum/views.py:177-182 | `groupby` loses and adds nothing |
| ForumViews.GroupMonthlyWellGrouped | abilian/sbe/apps/forum/views.py:170-178 | Each group is a non-empty run of one month, distinct from its neighbours |
| ForumViews.AddToMembers | abilian/sbe/apps/forum/views.py:177 | One `groupby` step appends the entity |
| ForumViews.AddToWellGrouped | abilian/sbe/apps/forum/views.py:177 | One `groupby` step keeps the grouping well formed and ends in the entity's month |
| ForumViews.CountAfter | abilian/sbe/apps/forum/views.py:83-85 | At most the number of posts, and all of them iff every post is later than the cutoff |
| ForumViews.CountAfterAntitone | abilian/sbe/apps/forum/views.py:82-85 | A later last visit never leaves more posts to read |
| ForumViews.LastView | abilian/sbe/apps/forum/views.py:78-82 | The last view on the thread, if there is one; none iff no view is on it |
| ForumViews.ViewedCounts | abilian/sbe/apps/forum/views.py:78-85 | The loop fails (IndexError) iff some view of a listed thread has no hit |
| ForumViews.ViewedCountsContents | abilian/sbe/apps/forum/views.py:78-85 | The loop records exactly the listed threads with a view: the number of posts after the last hit of the last view on each |
| ForumViews.GetViewedPosts | abilian/sbe/apps/forum/views.py:71-91 | No threads gives None. Otherwise it fails iff some view of a listed thread has no hit |
| ForumViews.GetViewedPostsContents | abilian/sbe/apps/forum/views.py:71-91 | Every listed thread gets a count: the posts after the user's last hit, or all posts but the first when never viewed |
| ForumViews.ViewedPostsBounds | abilian/sbe/apps/forum/views.py:87-89 | Each count lies between -1 (a never-viewed thread without posts) and the number of posts |
| ForumViews.ThreadClose | abilian/sbe/apps/forum/views.py:400-424 | An action other than "close" or "reopen" is a BadRequest. Otherwise the thread is closed iff the action is "close", and nothing else changes |
| ForumViews.CloseStopsPosts | abilian/sbe/apps/forum/views.py:418-421 | After "close" no post can be created; after "reopen" one can |
| ForumViews.PyIndex | abilian/sbe/apps/forum/views.py:492 | `attachments[idx]` succeeds exactly for -n <= idx < n and names a position that counts from the end when negative |
| ForumViews.Parsed | abilian/sbe/apps/forum/views.py:483-487 | Each submitted index is parsed by `int()` |
| ForumViews.RemovedAsWritten | abilian/sbe/apps/forum/views.py:482-492 | As written, every removed position names an attachment. The loop raises IndexError iff some parsed index is at most the number of attachments but still names none, which includes the index equal to that number |
| ForumViews.Removed | abilian/sbe/apps/forum/views.py:482-492 | With the evidently intended guard, a position is removed iff some submitted index names it as a Python index: the position itself, or counted from the end when negative |
| ForumViews.RemovedIndicesAsWritten | abilian/sbe/apps/forum/views.py:482-492 | As written, on the submitted strings: it fails iff some index gets past the guard without naming an attachment |
| ForumViews.RemovedIndices | abilian/sbe/apps/forum/views.py:482-492 | With the intended guard, exactly the attachments that a submitted index names are removed, negative indices counting from the end |
| ForumViews.RemovedAgrees | abilian/sbe/apps/forum/views.py:489-492 | Wherever the written loop gets through it removes what the intended guard removes, and it gets through whenever every index is unparsable or names an attachment, negative ones included |
| ForumViews.RemovedFromEnd | abilian/sbe/apps/forum/views.py:492 | The index -1 removes the last attachment, as written and as intended |
| ForumViews.RemovedAsWrittenPastEnd | abilian/sbe/apps/forum/views.py:489-492 | The index equal to the number of attachments gets past the written guard and raises IndexError; the intended guard skips it |
| ForumViews.PastEnd | abilian/sbe/apps/forum/views.py:489-492 | The same, on the parsed index |
| Wiki.TitleNameSync | abilian/sbe/apps/wiki/models.py:58-64 | Setting the title or the name sets both to the value and changes nothing else; the listener at abilian/sbe/apps/wiki/models.py:93-102 ends the mutual calls |
| Wiki.MaxNumber | abilian/sbe/apps/wiki/models.py:69 | The largest revision number: some revision has it and none exceeds it |
| Wiki.CreateRevision | abilian/sbe/apps/wiki/models.py:66-75 | One revision is appended and the earlier ones are kept. It is numbered 0 for the first, and otherwise above every earlier number. It holds the body, the message and the current user, and the body becomes the page's |
| Wiki.CreateRevisionIncreasing | abilian/sbe/apps/wiki/models.py:66-75 | Revision numbers stay strictly increasing, and so unique, as the table's unique constraint requires (abilian/sbe/apps/wiki/models.py:107) |
| Wiki.NewPage | abilian/sbe/apps/wiki/models.py:48-51 | A new page has the title and the name it was given, and one revision numbered 0 with the body |
| Wiki.CleanUp | abilian/sbe/apps/wiki/forms.py:20-23 | The result has no carriage return, and a text without one is unchanged |
| Wiki.CleanUpKeeps | abilian/sbe/apps/wiki/forms.py:22 | Every other character is kept, as many times as it occurs |
| Wiki.CleanUpAppend | abilian/sbe/apps/wiki/forms.py:22 | Cleaning works piece by piece |
| Wiki.CleanUpCons | abilian/sbe/apps/wiki/forms.py:22 | Cleaning a text that starts with a character drops that character iff it is a carriage return |
| Wiki.IntOrNone | abilian/sbe/apps/wiki/forms.py:26-30 | A missing value gives None. Otherwise the result is `int()` of the text, or None when that raises ValueError |
| Wiki.IntOrNoneRoundTrip | abilian/sbe/apps/wiki/forms.py:26-30 | A printed integer, positive or negative, reads back as itself |
| Wiki.ValidateLastRevisionId | abilian/sbe/apps/wiki/forms.py:55-63 | "Edited since" exactly when both ids are known and differ |
| Wiki.ValidateTitle | abilian/sbe/apps/wiki/forms.py:48-53 | An error exactly when the title changed and a page with the stripped title exists (abilian/sbe/apps/wiki/util.py:6-15) |
| Wiki.ValidateStrippedTitle | abilian/sbe/apps/wiki/forms.py:34-53 | With the stripping filter, a page keeping its title passes, and a changed title fails exactly when it is taken |
| Social.WordRun | src/abilian/sbe/apps/social/models.py:52 | The longest run of word characters: all of it is `\w`, and the character after it is not |
| Social.TagAt | src/abilian/sbe/apps/social/models.py:52 | The tag after a "#" is a non-empty run of word characters |
| Social.Tags | src/abilian/sbe/apps/social/models.py:50-52 | Every tag `re.findall(r"(?u)#([^\W]+)")` returns is a non-empty run of word characters |
| Social.SkipRun | src/abilian/sbe/apps/social/models.py:52 | A run of word characters holds no "#", so no tag starts inside it |
| Social.TagsMatchSpec | src/abilian/sbe/apps/social/models.py:50-52 | The scan returns exactly one tag per "#" that is followed by a word character, the longest run after it, in text order |
| Social.NoTags | src/abilian/sbe/apps/social/models.py:50-52 | There is no tag iff no "#" is followed by a word character |
| Social.NoTagsSpec | src/abilian/sbe/apps/social/models.py:52 | The reference has no tag iff no "#" is followed by a word character |
| Social.TagsSkipPlain | src/abilian/sbe/apps/social/models.py:52 | Text without a "#" contributes no tag |
| Social.TagsTakeRun | src/abilian/sbe/apps/social/models.py:52 | A "#" followed by a maximal run of word characters yields that run as the next tag |
| Social.RunOfWord | src/abilian/sbe/apps/social/models.py:52 | The run stops at the first character outside `\w` |
| Social.TagsExample | src/abilian/sbe/apps/social/tests/test_social_models.py:118-120 | "abc #123 #cde #voilà_l_été #789" has the tags "123", "cde", "voilà_l_été" and "789" |
| Social.ExampleWords | src/abilian/sbe/apps/social/tests/test_social_models.py:119-120 | Digits, accented letters and underscores are word characters |
| Social.ExampleText | src/abilian/sbe/apps/social/tests/test_social_models.py:119 | The example text is the prefix followed by the four tags, each with its separator |
| Social.FourTags | src/abilian/sbe/apps/social/tests/test_social_models.py:118-120 | Four space-separated tags after a text without "#" are found in order |
| Social.TwoTags | src/abilian/sbe/apps/social/models.py:52 | Two space-separated tags are found in order |
| Social.TagThenSpace | src/abilian/sbe/apps/social/models.py:52 | A tag ends at the space that follows it |
| Social.ByCreator | src/abilian/sbe/apps/social/models.py:17-19 | Exactly the messages whose creator is the user, in order |
| Social.ByCreatorAppend | src/abilian/sbe/apps/social/models.py:18-19 | The filter works message by message: on a concatenation it gives the concatenation of the results |
| Social.ByCreatorIdempotent | src/abilian/sbe/apps/social/models.py:18-19 | Filtering twice is filtering once |
| SocialDigest.IsEmpty | abilian/sbe/apps/notifications/tasks/social.py:152-156 | Empty iff none of the seven lists has an entry |
| SocialDigest.Update | abilian/sbe/apps/notifications/tasks/social.py:158-186 | The digest stays the community's, and one activity adds at most one entry |
| SocialDigest.UpdateEntries | abilian/sbe/apps/notifications/tasks/social.py:158-186 | Only a join, a post of a readable document, wiki page, thread or post, or an update of a readable document or wiki page adds anything. On an empty digest such an activity adds exactly one entry. Entries are only ever appended |
| SocialDigest.PostThenUpdate | abilian/sbe/apps/notifications/tasks/social.py:178-186 | A document or wiki page posted and then updated is listed once, as new |
| SocialDigest.Collect | abilian/sbe/apps/notifications/tasks/social.py:104-105 | Applying the activities in order keeps the digest the community's |
| SocialDigest.CollectSize | abilian/sbe/apps/notifications/tasks/social.py:104-105 | The digest grows by at most one entry per activity |
| SocialDigest.CollectKeepsEntries | abilian/sbe/apps/notifications/tasks/social.py:104-105 | Entries once in stay in |
| SocialDigest.PrefixSizes | abilian/sbe/apps/notifications/tasks/social.py:144-150 | A digest whose lists extend another's has at least as many entries |
| SocialDigest.CollectEmpty | abilian/sbe/apps/notifications/tasks/social.py:104-108 | A community's digest stays empty iff none of its activities is reportable |
| SocialDigest.Select | abilian/sbe/apps/notifications/tasks/social.py:96-102 | Exactly the activities of the last day whose target or object is the community |
| SocialDigest.CommunityDigest | abilian/sbe/apps/notifications/tasks/social.py:94-105 | The digest built is the community's |
| SocialDigest.Digests | abilian/sbe/apps/notifications/tasks/social.py:89-108 | Only non-empty digests are kept, at most one per membership |
| SocialDigest.DigestsComplete | abilian/sbe/apps/notifications/tasks/social.py:89-108 | Every community of the user with something to report has its digest in the list |
| SocialDigest.DigestsEmpty | abilian/sbe/apps/notifications/tasks/social.py:89-110 | The list is empty iff no membership's community has anything to report |
| SocialDigest.MakeMessage | abilian/sbe/apps/notifications/tasks/social.py:69-128 | No message iff no community has anything to report. Otherwise one message to the user's address, holding only non-empty digests |
| SocialDigest.SendDigestTo | abilian/sbe/apps/notifications/tasks/social.py:54-66 | Returns 1 exactly when a message was sent, and that message is `make_message`'s |
| SocialDigest.SendDaily | abilian/sbe/apps/notifications/tasks/social.py:36-51 | At most one message per user |
| SocialDigest.SendDailyRecipients | abilian/sbe/apps/notifications/tasks/social.py:36-51 | Every message goes to a user who can log in, asked for the daily digest and has a valid address, and is that user's digest. Every such user with something to report gets one |
| SocialDigest.IneligibleSkipped | abilian/sbe/apps/notifications/tasks/social.py:37-46 | A user who cannot log in, did not ask for the digest or has an invalid address gets nothing |
| SocialGroups.AllGroups | abilian/sbe/apps/social/views/groups.py:28-33 | The "all_groups" tab holds exactly the groups the user may see: a site admin sees all of them, anybody else the public groups and the ones they belong to. The order is kept and nothing is added |
| SocialGroups.AllGroupsAdmin | abilian/sbe/apps/social/views/groups.py:29-33 | A site admin gets the whole list unchanged, in the query's order |
| SocialGroups.WordLen | abilian/sbe/apps/social/views/groups.py:65 | The first word of the split ends at the first whitespace character |
| SocialGroups.WordsStartAt | abilian/sbe/apps/social/views/groups.py:62-66 | Some word of the split name starts with the query exactly when the query occurs at a word start of the name (for a query without whitespace) |
| SocialGroups.WordsCons | abilian/sbe/apps/social/views/groups.py:65 | The words of a name that starts with a word are that word followed by the words of the rest |
| SocialGroups.StartsSplit | abilian/sbe/apps/social/views/groups.py:65 | In a name that starts with a word, the query can begin a word only at position 0 or at a word start of the rest |
| SocialGroups.FirstWord | abilian/sbe/apps/social/views/groups.py:63-65 | The first word starts with the query exactly when the query is at position 0 |
| SocialGroups.Rows | abilian/sbe/apps/social/views/groups.py:68 | One result per member, in order, holding the member's id and display name |
| SocialGroups.MatchingRows | abilian/sbe/apps/social/views/groups.py:61-68 | A row is in the result exactly when it is the id and name of a member that a word of whose lowercased first or last name starts with the query |
| SocialGroups.GroupJson | abilian/sbe/apps/social/views/groups.py:57-69 | With no query, or an empty one, every member is listed. Otherwise exactly the members that match the lowercased query are listed |
| SocialGroups.SpacedQueryMatchesNothing | abilian/sbe/apps/social/views/groups.py:60-66 | A query holding whitespace matches nobody, since no word of a split holds any |
| SocialGroups.RemoveFirst | abilian/sbe/apps/social/views/groups.py:110 | Removing from a list takes out exactly one occurrence of the element |
| SocialGroups.GroupPost | abilian/sbe/apps/social/views/groups.py:72-119 | Any action but join and leave fails for a user who is neither a group admin nor a site admin. A membership action whose user field is not an integer flashes the error and goes to the group's page without changing the group. Otherwise the browser goes to the return URL when one is given, or else to the group's page |
| SocialGroups.AdminsStayDistinct | abilian/sbe/apps/social/views/groups.py:105-110 | The administrator list never gets a duplicate. After add-admin the user is in it, and after remove-admin the user is out of it, with only that one entry gone |
| SocialGroups.JoinLeaveVisibility | abilian/sbe/apps/social/views/groups.py:87-90 | Joining makes the group visible to the user. After leaving, the user sees it only if it is public or they are a site admin |
| SocialGroups.GroupMugshot | abilian/sbe/apps/social/views/groups.py:153-175 | A size that is not an integer, or is above 500, is a ValueError, and a missing group is NotFound. Otherwise the image comes from the group's photo when it has one and from the default image when not. It is cropped to the size unless the size is 0 |
| WallPresenters.Link | abilian/sbe/apps/wall/presenters.py:37-38 | The rendered object link is never empty and ends with the closing tag's '>' |
| WallPresenters.TemplateEnds | abilian/sbe/apps/wall/presenters.py:25-35 | Every message template ends with a quote after the object, except the join and leave templates, which end with a period |
| WallPresenters.MessageEnds | abilian/sbe/apps/wall/presenters.py:92-141 | Every activity sentence ends with a period. A known template or a post whose entry has a target ends by naming the community, unless the community is to be left out |
| WallPresenters.EndsWithAppend | abilian/sbe/apps/wall/presenters.py:116-120 | A sentence built by appending a closing ends with that closing |
| WallPresenters.LastOfAppend | abilian/sbe/apps/wall/presenters.py:117-120 | Appending a closing that ends with a period gives a sentence ending with a period. The character before it comes from the closing, or from the sentence when the closing is the period alone |
| WallPresenters.IgnoreCommunityDropsTarget | abilian/sbe/apps/wall/presenters.py:117-129 | Asking to leave the community out gives the same sentence as an entry without a target |
| WallPresenters.JoinEndsWithTwoPeriods | abilian/sbe/apps/wall/presenters.py:33-34 | As written, a join or leave sentence without the community ends with two periods, because its template already ends with one and the message appends another |
| WallPresenters.CorrectedAgrees | abilian/sbe/apps/wall/presenters.py:114-141 | The corrected sentence is the one as written, or the one as written less its final extra period |
| WallPresenters.CorrectedMessageEnds | abilian/sbe/apps/wall/presenters.py:114-141 | The corrected sentence ends with a single period. It still names the community whenever the sentence as written does |
| WallPresenters.CorrectedJoin | abilian/sbe/apps/wall/presenters.py:33-34 | The corrected join or leave sentence is the template text, the link and one period |
| WallPresenters.ClosingFacts | abilian/sbe/apps/wall/presenters.py:118 | A sentence closed by " in the community {target}." ends with that closing and a single period |
| WallPresenters.QuoteOpening | abilian/sbe/apps/wall/presenters.py:26-32 | The opening of a post sentence, or of a template that does not end with a period, ends with a quote |
| WallPresenters.LinkThenDot | abilian/sbe/apps/wall/presenters.py:33-34 | A period right after a link follows its '>', so it is not doubled |
| WallPresenters.FallbackEnd | abilian/sbe/apps/wall/presenters.py:131-141 | The sentences of the other verbs (join, leave and update without a template, and unknown verbs) end with a single period |
| WallPresenters.Truncate | abilian/sbe/apps/wall/presenters.py:156-157 | A text of at most 400 characters is kept. A longer one keeps its first 400 characters followed by one ellipsis character |
| WallPresenters.TruncateIdempotent | abilian/sbe/apps/wall/presenters.py:156-157 | Cutting an excerpt a second time leaves it unchanged |
| WallPresenters.BodyOf | abilian/sbe/apps/wall/presenters.py:149-180 | A thread shows the excerpt of its first post, and fails with an IndexError when it has no post. A post shows its own excerpt, a document the document block, and anything else nothing |
| DataTable.CeilDiv | abilian/sbe/static/extranet/datatable.js:15-16 | `Math.ceil` of an integer quotient: the least multiple of the divisor at or above the dividend, for either sign of the divisor |
| DataTable.CeilDivExact | abilian/sbe/static/extranet/datatable.js:15-16 | A whole number of pages divides exactly, with no rounding |
| DataTable.Paging | abilian/sbe/static/extranet/datatable.js:8-18 | The paging information copies the start, length and record counts. For a positive page length the page count is the least number of pages that holds every filtered record, and the current page is the first row over the length, rounded up |
| DataTable.WindowBounds | abilian/sbe/static/extranet/datatable.js:44-62 | The pager's window starts at page 1 or later and ends at the last page or before. It holds as many pages as there are, up to five |
| DataTable.WindowHasCurrent | abilian/sbe/static/extranet/datatable.js:49-62 | When the current page exists, the window shows its link |
| DataTable.Buttons | abilian/sbe/static/extranet/datatable.js:69-71 | One link per page of the window, numbered in order. Exactly the current page's link is active |
| DataTable.Update | abilian/sbe/static/extranet/datatable.js:43-93 | Previous is disabled exactly on the first page. Next is disabled exactly on the last page or when there is no page. There are at most five links, each naming an existing page, and none when there is no page |
| DataTable.OneActive | abilian/sbe/static/extranet/datatable.js:69-70 | On an existing page exactly one link is active, and it is the current page's |
| DataTable.ClickPage | abilian/sbe/static/extranet/datatable.js:73-77 | A click on the link of page j moves the first row shown to the start of page j and changes nothing else |
| DataTable.ClickRoundTrip | abilian/sbe/static/extranet/datatable.js:15-16 | After a click on the link of an existing page, that page is the current one and its link the only active one. Previous and next are disabled exactly on the first and last pages |
| DataTable.NonNullAsc | abilian/sbe/static/extranet/datatable.js:101-107 | Equal values tie, an empty value sorts before any other, and the rest follow the string order |
| DataTable.NonNullDesc | abilian/sbe/static/extranet/datatable.js:108-114 | Equal values tie, an empty value sorts after any other, and the rest follow the reversed string order |
| DataTable.NonNullIsStringOrder | abilian/sbe/static/extranet/datatable.js:101-114 | The non-null comparators order exactly as the plain string ones, because the empty string is the least string anyway. The descending one is the ascending one reversed |
| DataTable.NonNullAscOrder | abilian/sbe/static/extranet/datatable.js:101-107 | The ascending comparator is antisymmetric and transitive |
| DataTable.AscLe | abilian/sbe/static/extranet/datatable.js:106 | The string comparator puts x first only when x is at or before y in lexicographic order |
| DataTable.LeAsc | abilian/sbe/static/extranet/datatable.js:106 | Lexicographic order puts x first only when the string comparator does |
| DataTable.FolderFirstByRank | abilian/sbe/static/extranet/datatable.js:115-129 | The folder-first comparator compares ranks, so it is antisymmetric and consistent with an order |
| DataTable.CmisTypeAsc | abilian/sbe/static/extranet/datatable.js:116-122 | The extranet's ascending comparator is the folder-first comparator on the "folder" type |
| DataTable.CmisTypeDesc | abilian/sbe/static/extranet/datatable.js:123-129 | The descending comparator is the same folder-first comparator, not its reverse |
| DataTable.FoldersFirst | abilian/sbe/static/js/sbe-datatable.js:10-21 | In a list ordered by a folder-first comparator every folder comes before every other value |
| DataTable.FolderTypesComeFirst | abilian/sbe/static/js/sbe-datatable.js:8-21 | Both directions of both folder-first comparators put the folder type first |
| DataTable.Values | abilian/sbe/static/extranet/datatable.js:495-498 | A single filter value becomes a list of one, and a list of values is kept |
| DataTable.Pushes | abilian/sbe/static/extranet/datatable.js:499 | One parameter per value of the filter, under the filter's name, in order |
| DataTable.ExpectedAppend | abilian/sbe/static/extranet/datatable.js:493-500 | The parameters of two runs of filters are those of the first followed by those of the second |
| DataTable.ServerParams | abilian/sbe/static/extranet/datatable.js:491-501 | The request's data gets, after what it held, the parameters of each filter in turn |
| DataTable.PushesMembers | abilian/sbe/static/extranet/datatable.js:499 | A parameter comes from a filter exactly when it has the filter's name and one of its values |
| DataTable.ExpectedMembers | abilian/sbe/static/extranet/datatable.js:491-501 | A parameter is sent exactly when some filter has that name and that value |
| DocumentViewer.PageSrc | abilian/sbe/static/js/document_viewer.js:39 | A page's image source is the original source, then "&page=", then the page number |
| DocumentViewer.PageSrcParses | abilian/sbe/static/js/document_viewer.js:39 | The page number can be read back from the source it built |
| DocumentViewer.Setup | src/abilian/sbe/static/js/document_viewer.js:3-24 | The viewer starts on the stored page with the original source and no key handler bound. The newer variant hides the previous and next controls exactly when there is at most one page. A start page within the document gives a valid viewer |
| DocumentViewer.Show | abilian/sbe/static/js/document_viewer.js:39-40 | A page load changes only the page and the image source, and the source shows that page |
| DocumentViewer.LoadNext | abilian/sbe/static/js/document_viewer.js:34-42 | Next goes one page on, and stays put when that would reach the page count. The source shows the page reached |
| DocumentViewer.LoadPrev | abilian/sbe/static/js/document_viewer.js:44-52 | Previous goes one page back but not before page 0. The source shows the page reached |
| DocumentViewer.Step | abilian/sbe/static/js/document_viewer.js:19-68 | Hovering changes neither page nor source. Entering binds the key handler, and leaving unbinds it, only for a preview of more than one page. A key stops the browser's default exactly when the handler is bound and the key is an arrow. The page count, the original source and the controls never change |
| DocumentViewer.StepValid | abilian/sbe/static/js/document_viewer.js:19-68 | Every event keeps the viewer valid: the page within the document, the source the original one or the page's, and no key handler on a single page |
| DocumentViewer.RunValid | abilian/sbe/static/js/document_viewer.js:19-68 | From a valid viewer, any sequence of events keeps it valid |
| DocumentViewer.SinglePageIgnoresKeys | abilian/sbe/static/js/document_viewer.js:29-31 | On a single-page preview, after any events, no key handler is bound and every key goes to the browser |
| DocumentViewer.NextPrev | abilian/sbe/static/js/document_viewer.js:34-52 | Next then previous comes back, except from the last page, where it goes one page back. Previous then next comes back, except from the first page |
| FolderUpload.ErrorMessages | abilian/sbe/static/js/folder_upload.js:13-17 | Each error message is the caller's message under the same key when there is one, and the default otherwise. No messages at all keeps both defaults |
| FolderUpload.FormData | abilian/sbe/static/js/folder_upload.js:12-18 | The posted data holds exactly the action and the CSRF field. The CSRF field holds the token, and the action is "upload" unless the CSRF field is itself named "action" |
| FolderUpload.Setup | abilian/sbe/static/js/folder_upload.js:10-18 | The dialog starts with no error, an empty queue and the merged messages |
| FolderUpload.ErrorMessage | abilian/sbe/static/js/folder_upload.js:41-51 | Status 413 shows the file-too-large message, and any other status the upload-error message |
| FolderUpload.FailedUi | abilian/sbe/static/js/folder_upload.js:38-53 | A failed line loses the upload icon and gets the red warning icon. Its progress bar is replaced by the error text, and an error text already there stays |
| FolderUpload.StartedUi | abilian/sbe/static/js/folder_upload.js:56-59 | A started line gets the upload icon and its status is shown. Its progress is kept |
| FolderUpload.CompletedUi | abilian/sbe/static/js/folder_upload.js:60-66 | A completed line swaps the upload icon for the ok icon and the default style for the success style. Its progress bar is filled to 100% |
| FolderUpload.UpdateLine | abilian/sbe/static/js/folder_upload.js:32-34 | Only the line of the event's file changes, and a file not in the queue changes nothing |
| FolderUpload.OnUploadComplete | abilian/sbe/static/js/folder_upload.js:29-67 | The error flag is set exactly when it was set or this upload failed. A failure marks the file's line whatever the event. Otherwise fileupload and filecomplete update the line and any other event changes nothing. Other lines and the messages are kept |
| FolderUpload.Step | abilian/sbe/static/js/folder_upload.js:22-27 | The page reloads exactly at the end of the uploads when no error is flagged. Hiding the modal clears the flag and empties the queue. A file event only adds its own error to the flag |
| FolderUpload.RunHasErrors | abilian/sbe/static/js/folder_upload.js:42 | After any events the error flag is set exactly when some upload failed since the modal was last hidden, or it was set at the start and the modal was never hidden |
| FolderUpload.ReloadIffNoError | abilian/sbe/static/js/folder_upload.js:22-27 | At the end of the uploads the page reloads exactly when no upload failed since the modal was last hidden |
| FolderUpload.ErrorTextSticks | abilian/sbe/static/js/folder_upload.js:52 | Once a line shows an error text, no event but hiding the modal or queuing the file again turns it back into a progress bar |

## Left out

- Persistence: sessions, commits, flushes and rollbacks are not modelled. A rollback is a
  function that returns its input tree. Sibling title uniqueness is an invariant of
  `DocTree.WellFormed`, and a clash is an error value.
- The security service: permissions are boolean inputs or predicates over ids.
- Library behaviour is a parameter: `os.path.normpath`, `mimetypes`, md5, date parsing and
  formatting, image resizing, the document converter.
- XML rendering and parsing (CMIS, WebDAV PROPFIND and LOCK): a handler's answer is its
  status and the changed tree.
- WebDAV GET, OPTIONS, PROPFIND and LOCK produce documents or XML and change nothing; they
  are not modelled.
- `documents/webdav/constants.py` is not part of this model; the status codes used are the
  standard ones of RFC 4918 and RFC 7231.
- Repository.CopyObject: copying a folder into its own subtree does not terminate in the
  source (the recursion walks collections that grow as it copies); the model answers
  RecursionError for that case and copies nothing.
- The lookup as written raises StopIteration for a missing child and AttributeError for a
  segment left below a document; "raises" in the lines below means either.
- Repository.GetObject: a path with a missing segment gives None, as the corrected lookup
  does. The lookup as written raises there; `Repository.FromRootAsWritten` states exactly
  where.
- Repository.GetObjectOld: the same corrected path lookup, with the same gap as
  `Repository.GetObject`.
- Repository.GetByPathOfKind: a missing segment gives None through the corrected lookup,
  where the lookup as written raises (`Repository.FromRootAsWritten`).
- WebDav handlers: every member below calls the `Repository` instance, as the views
  evidently mean. As written the views import the module of that name, so each call raises
  AttributeError (`WebDav.ImportRaises`). With the import corrected, the path lookup as
  written still raises on a missing segment; the lines below say where.
- WebDav.GetObject: as written, AttributeError on every path. With the instance, a missing
  resource is NotFound here, where the lookup as written raises first;
  `WebDav.MissingPathRaisesAsWritten` states the cases exactly.
- WebDav.Delete: as written, AttributeError on every path. With the instance, a missing
  resource is NotFound through `WebDav.GetObject`, where the lookup as written raises first.
- WebDav.Unlock: as written, AttributeError on every path. With the instance, a missing
  resource is NotFound through `WebDav.GetObject`, where the lookup as written raises first.
- WebDav.UnlockWithStubs: as written, UNLOCK never answers 204, because of the
  AttributeError; with the instance, it inherits the corrected lookup of `WebDav.Unlock`.
- WebDav.Mkcol: as written, only the 415 for a request body is answered, and every other
  request raises AttributeError. With the instance, the 201 and 409 answers for a path that
  does not exist yet follow the corrected lookup. The lookup as written raises there, so
  neither answer is reached; `WebDav.MissingPathRaisesAsWritten` states it.
- WebDav.MkcolCreatesSubfolder: as written, no folder is created, because of the
  AttributeError. With the instance, the creation happens only under the corrected lookup.
- WebDav.Put: as written, AttributeError on every request. With the instance, the 201 and
  409 answers for a path that does not exist yet follow the corrected lookup; the lookup as
  written raises first.
- WebDav.PutWritesDocument: as written, no content lands, because of the AttributeError.
  With the instance, the new-document case holds only under the corrected lookup.
- WebDav.CopyOrMove: as written, only the TypeError of a missing Destination header is
  answered, and everything else raises AttributeError. With the instance, the 201 answer
  for a new destination follows the corrected lookup, where the lookup as written raises
  (`WebDav.NewDestinationRaisesAsWritten`). The 409 answer for a missing destination parent
  is not related to the lookup as written.
- WebDav.Transfer: as written, never reached, since the AttributeError comes earlier in the
  COPY or MOVE; it models the instance's copy, rename and move.
- WebDav.MoveLandsInFolder: as written, no MOVE completes, because of the AttributeError;
  the lemma is about the instance's rename and move.
- WebDav.MissingPathRaisesAsWritten: its lookup as written is the instance's. Through the
  module import the handlers raise AttributeError on every path, not only a missing one.
- WebDav.NewDestinationRaisesAsWritten: its lookup as written is the instance's. Through the
  module import every destination lookup raises AttributeError, not only a new one.
- Cmis.GetObjectEntry: a path with a missing segment answers NotFound; as written the lookup
  raises there (`Cmis.GetObjectEntryPathAsWritten`).
- DocTree.Children: subfolders and documents are each listed in id order. The source orders
  them by title under the database's collation, which is not modelled; the order only shows
  in listings built from `children`.
- Repository.RootFolder: with no stored root the model answers None, and "/" finds nothing.
  The source then returns a new, unsaved folder titled "root", which a lookup of "/" gives
  back; its own comment says this happens only in tests.
- SocialGroups.MatchingRows and SocialGroups.GroupJson: lowercasing is `Text.Lower`, which
  folds only A to Z. Python's `lower()` folds every Unicode letter, so a query or name with
  other capitals can match in the source and not in the model.
- Text.PyInt: single underscores between digits are accepted, as in Python 3.6 and later.
  Under Python 2, which the older copies of some callers target, `int("1_0")` is a
  ValueError. Only ASCII digits and whitespace below U+00A1 are modelled: Python 3's `int()`
  also reads other Unicode decimal digits (`int("٣") == 3`) and skips Unicode whitespace
  such as U+2003 or U+3000, where the model refuses the text.
- Wiki.IntOrNone: built on `Text.PyInt`, so text in Unicode decimal digits or padded with
  Unicode whitespace gives None here and a number in the source; underscores are accepted as
  in Python 3.
- CommunityViews.IntField: built on `Text.PyInt`, so text in Unicode decimal digits or padded
  with Unicode whitespace is a ValueError here and a number in the source; underscores are
  accepted as in Python 3.
- DocumentsViews.IntArg: built on `Text.PyInt`, so an argument in Unicode decimal digits or
  padded with Unicode whitespace is a ValueError here and a number in the source.
- DocViews.GetNewFilename: a numbered suffix counts only when written in ASCII digits. Python
  3's `\d` and `int()` also take other Unicode decimal digits, so with the names "a.txt" and
  "a-٣.txt" taken the source answers "a-4.txt" and the model "a-1.txt".
- CommunityWizard.WizardSaving: the source commits after each existing account joins; the
  model applies all the joins at once and keeps no intermediate commits.
- WebDav.CopyOrMove: a COPY or MOVE whose destination is the source itself deletes the
  source first; the model then reports the source as gone instead of modelling the
  stale object.
- Cmis.SetContentStream: the `get_document` lookup and its log line are not part of this
  member; the lookup is `Cmis.GetDocument`.
- Cmis: an id from the query string is resolved with `Text.ParseNat`; the database's own
  coercion of other texts is not modelled.
- Persistence beyond the document repository: SQLAlchemy sessions, queries and commits of
  the community, forum, wiki and social modules are values and sequences in query order.
- Celery tasks, mail sending and mail rendering: a task's outcome is the data it would send.
- Templates and their rendering: a view's answer is the data it would render. Translation
  (`_`, `_l`) is the identity.
- Library behaviour is a parameter here too: `bleach.clean`, `format_date`,
  `secure_filename`, `validate_email`, the CSV tokenizer, the uid digest and image resizing.
- Social.IsTagChar: Python's Unicode `\w` is modelled up to U+024F; word characters of
  later blocks are not tag characters in the model.
- SocialGroups.AllGroups: the other tab of `groups()`, the user's own groups sorted by
  name, is not modelled.
- SocialGroups.GroupPost: `User.join` and `User.leave` change the group's member set; the
  membership table behind them is not modelled.
- SocialDigest: the daily task logs and skips a user whose digest fails; the logging and
  the exception are not modelled, and every user's digest is computed.
- CommunityCommon: the month abbreviation of the locale is a field of the date, not
  computed.
- CommunityCommon: `get_nb_viewers` and `get_viewed_times` only count tracker records;
  they are not modelled.
- CommunityWizard.Dedup: Python does not specify the iteration order of the set of unknown
  emails; the model takes input order.
- WallPresenters.CorrectedAgrees: states only that the corrected sentence is the written
  one or that one less its final period, not which entries differ.
- DataTable.Paging: requires a page length other than 0. JavaScript would give Infinity or
  NaN pages there, which the model does not represent.
- DataTable: the `html-pre` and `string-pre` pre-processing of sort values is not modelled.
  Strings are compared by code point, not by UTF-16 code unit.
- DataTable.ServerParams: a filter widget whose value is null is not modelled; every filter
  has a value or a list of values.
- DocumentViewer.Step: entering the preview twice without leaving binds the key handler
  twice in the browser; the model keeps one flag. The fade animations are not modelled.
- FolderUpload: the file line templates of the widget are inputs of the `Queued` event.
  The two snapshots differ only in selectors and syntax, so one model covers both. The page
  reload is a boolean result of the step.

## Findings

| source | as written | input that shows it | evidently intended | confidence | as-written member | corrected member |
|---|---|---|---|---|---|---|
| abilian/sbe/apps/documents/models.py:336-341 | A missing path segment is looked up with `toolz.first`, which raises StopIteration, but the handler catches IndexError | A root folder without children and the path "/x" | The lookup returns None | high, not executed | DocTree.AsWrittenMissRaises | DocTree.GetObjectByPathRepairsMiss |
| abilian/sbe/apps/documents/cmis/atompub.py:283 | `created = document.content is None` reads `content_blob.value`, which raises AttributeError when there is no blob | A document created without content, then a first setContentStream | The first content stream is stored and the answer is 201 | medium, not executed | Cmis.SetContentStreamFirstFails | Cmis.SetContentStream |
| abilian/sbe/apps/communities/views/views.py:440 | The sheet title is cut to 30 characters and given the suffix "â€¦", which is U+2026 mis-encoded as three characters | A community title of 32 letters | The title is at most 31 characters, as the older copy's single-character ellipsis gives | high, not executed | CommunityViews.SheetTitleAsWrittenTooLong | CommunityViews.SheetTitle |
| abilian/sbe/apps/forum/tasks.py:139 | A local part over 64 characters is cut to 64, and is rejected only when the name, "+" and uid alone exceed 64. When they make exactly 64, the whole "-digest" is cut off | A 55-character name and the uid "P-fr-3-4" | The local part stays under 64 as the docstring says, so every address built keeps part of its digest and decodes back | medium, not executed | ForumMail.FullWidthReplyRejected | ForumMail.CorrectedReplyRoundTrip |
| abilian/sbe/apps/forum/views.py:489 | An attachment index is skipped only when greater than the number of attachments | A post with n attachments and the submitted index n | Indices that name no attachment (at or past the end, or below minus the number of attachments) are skipped; negative indices within range still count from the end, as `attachments[idx]` does | high, not executed | ForumViews.RemovedAsWrittenPastEnd | ForumViews.RemovedIndices |
| abilian/sbe/apps/documents/webdav/views.py:14 | `from .. import repository` binds the module documents/repository.py, not the `repository` instance it defines (every other importer uses `from ..repository import repository`), so each `repository.` call in the handlers raises AttributeError | An admin's MKCOL of any path with an empty body, or any PUT, DELETE, UNLOCK, or COPY or MOVE with a Destination header | The handlers call the `Repository` instance | high, not executed | WebDav.HandleAsWritten | WebDav.Handle |
| abilian/sbe/apps/wall/presenters.py:33-34 | The join and leave templates end with a period, and `message` appends another when the community is not named | A join entry without a target | The sentence ends with one period | high, not executed | WallPresenters.JoinEndsWithTwoPeriods | WallPresenters.CorrectedMessageEnds |
