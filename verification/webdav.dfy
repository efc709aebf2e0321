/** The WebDAV endpoint's method handlers (documents/webdav/views.py): path normalisation
    and the status logic of MKCOL, PUT, DELETE, COPY, MOVE and UNLOCK, following RFC 4918
    (MKCOL section 9.3, PUT section 9.7, DELETE section 9.6, COPY section 9.8, MOVE section
    9.9, the Overwrite header section 10.6, UNLOCK section 9.11).

    `os.path.normpath` is a parameter; the request body is reduced to whether it is empty,
    and document content is not part of the tree. Every handler runs behind the
    `only_admin` guard. */
module WebDav {
  import opened Wrappers
  import opened Text
  import opened DocTree
  import opened Repository

  // The HTTP status codes the handlers answer with (section 6 of RFC 7231, RFC 4918).
  const Created: int := 201
  const NoContent: int := 204
  const MethodNotAllowed: int := 405
  const Conflict: int := 409
  const PreconditionFailed: int := 412
  const UnsupportedMediaType: int := 415
  const Locked: int := 423

  /** The exceptions a handler lets escape. `SourceGone` marks a COPY or MOVE whose
      overwrite deleted the source itself, which the model does not follow further;
      `AttributeError` is the handlers' failure as the repository is imported (see
      `HandleAsWritten`). */
  datatype DavError = Forbidden | NotFound | TypeError | Repo(e: RepoError) | SourceGone | AttributeError

  /** A handler's answer: the status and the repository afterwards. */
  datatype Reply = Reply(status: int, tree: Tree)

  /** `only_admin`, run before every request. */
  function OnlyAdmin(admin: bool): (r: Result<(), DavError>)
    ensures r.Success? <==> admin
    ensures r.Failure? ==> r.error == Forbidden
  {
    if admin then Success(()) else Failure(Forbidden)
  }

  // ---------------------------------------------------------------------------
  // normpath, split_path
  // ---------------------------------------------------------------------------

  /** `normpath`: `os.path.normpath`, then a "/" put in front when missing. */
  function NormPath(norm: string -> string, path: string): (r: string)
    ensures |r| > 0 && r[0] == '/'
    ensures "/" <= norm(path) ==> r == norm(path)
    ensures !("/" <= norm(path)) ==> r == "/" + norm(path)
  {
    var p := norm(path);
    if "/" <= p then p else "/" + p
  }

  /** Trailing "/" characters removed. */
  function RStripSlashes(s: string): (r: string)
    ensures r <= s
    ensures forall i :: |r| <= i < |s| ==> s[i] == '/'
    ensures |r| > 0 ==> r[|r| - 1] != '/'
  {
    if |s| == 0 || s[|s| - 1] != '/' then s else RStripSlashes(s[..|s| - 1])
  }

  predicate AllSlashes(s: string) {
    forall i :: 0 <= i < |s| ==> s[i] == '/'
  }

  /** `os.path.dirname` and `os.path.basename` of a path holding a "/": the basename is what
      follows the last "/", the dirname what precedes it, with trailing slashes removed
      unless it is nothing but slashes. */
  function DirBase(p: string): (r: (string, string))
    requires '/' in p
    ensures '/' !in r.1
    ensures |r.1| < |p| && p[|p| - |r.1| - 1] == '/' && p[|p| - |r.1|..] == r.1
    ensures p[0] == '/' ==> |r.0| > 0 && r.0[0] == '/'
  {
    var i := LastIndexOf(p, '/').value;
    var head := p[..i + 1];
    (if AllSlashes(head) then head else RStripSlashes(head), p[i + 1..])
  }

  /** `split_path`: normalises (again) and splits into (dirname, basename). */
  function SplitPath(norm: string -> string, path: string): (r: (string, string))
    ensures '/' !in r.1 && |r.0| > 0 && r.0[0] == '/'
  {
    DirBase(NormPath(norm, path))
  }

  /** In a path that starts with "/" and holds no "//", the dirname and basename put back
      together with one "/" give the path again. */
  lemma DirBaseJoin(p: string)
    requires |p| > 0 && p[0] == '/' && !Contains(p, "//")
    ensures var (d, b) := DirBase(p);
            p == (if d == "/" then "/" else d + "/") + b
  {
    var i := LastIndexOf(p, '/').value;
    var head := p[..i + 1];
    if i == 0 {
      assert AllSlashes(head);
    } else {
      DoubleSlashAt(p, i);
      assert p[i - 1] != '/';
      assert !AllSlashes(head);
      assert RStripSlashes(head) == p[..i];
      assert p[..i] != "/";
    }
  }

  /** Two slashes in a row are an occurrence of "//". */
  lemma DoubleSlashAt(p: string, i: nat)
    requires 0 < i < |p|
    ensures p[i - 1] == '/' && p[i] == '/' ==> At(p, "//", i - 1) && Contains(p, "//")
  {
    if p[i - 1] == '/' && p[i] == '/' {
      assert p[i - 1..i + 1] == "//";
      assert At(p, "//", i - 1);
    }
  }

  // ---------------------------------------------------------------------------
  // Lookups shared by the handlers
  // ---------------------------------------------------------------------------

  function Lookup(t: Tree, path: string): (r: Result<Option<Id>, DavError>)
    requires WellFormed(t)
    ensures r.Success? <==> GetObjectByPathFromRoot(t, path).Success?
    ensures r.Success? ==> r.value == GetObjectByPathFromRoot(t, path).value
    ensures r.Success? && r.value.Some? ==> r.value.value in t.objs
  {
    match GetObjectByPathFromRoot(t, path)
    case Failure(e) => Failure(Repo(e))
    case Success(o) =>
      LookupFinds(t, path);
      Success(o)
  }

  /** What the path lookup finds is a stored object. */
  lemma LookupFinds(t: Tree, path: string)
    requires WellFormed(t)
    ensures var r := GetObjectByPathFromRoot(t, path);
            r.Success? && r.value.Some? ==> r.value.value in t.objs
  {
    var r := GetObjectByPathFromRoot(t, path);
    if r.Success? && r.value.Some? {
      var root := RootFolder(t).value;
      DescendFinds(t, root, if path == "/" then [] else Split(path[1..], '/'));
    }
  }

  lemma {:induction false} DescendFinds(t: Tree, f: Id, segments: seq<string>)
    requires f in t.objs
    ensures Descend(t, f, segments).Some? ==> Descend(t, f, segments).value in t.objs
    decreases |segments|
  {
    if |segments| > 0 {
      match ChildNamed(t, f, segments[0], 0)
      case None =>
      case Some(c) => DescendFinds(t, c, segments[1..]);
    }
  }

  function LookupFolder(t: Tree, path: string): (r: Result<Option<Id>, DavError>)
    requires WellFormed(t)
    ensures r.Success? <==> GetObjectByPathFromRoot(t, path).Success?
    ensures r.Success? ==> r.value == GetByPathOfKind(t, path, Folder).value
    ensures r.Success? && r.value.Some? ==> IsFolder(t, r.value.value)
  {
    match GetByPathOfKind(t, path, Folder)
    case Failure(e) => Failure(Repo(e))
    case Success(o) => Success(o)
  }

  /** `get_object`: a path that resolves to nothing is NotFound. */
  function GetObject(t: Tree, path: string): (r: Result<Id, DavError>)
    requires WellFormed(t)
    ensures r.Success? ==> r.value in t.objs && GetObjectByPathFromRoot(t, path) == Success(Some(r.value))
    ensures r == Failure(NotFound) <==> GetObjectByPathFromRoot(t, path) == Success(None)
  {
    var o :- Lookup(t, path);
    if o.None? then Failure(NotFound) else Success(o.value)
  }

  // ---------------------------------------------------------------------------
  // MKCOL
  // ---------------------------------------------------------------------------

  /** MKCOL: a request body is 415; an existing resource is 405; a missing parent collection
      is 409; otherwise the folder is created under its parent and the answer is 201. */
  function Mkcol(t: Tree, admin: bool, norm: string -> string, path: string, bodyEmpty: bool): (r: Result<Reply, DavError>)
    requires WellFormed(t)
    ensures !admin ==> r == Failure(Forbidden)
    ensures admin && !bodyEmpty ==> r == Success(Reply(UnsupportedMediaType, t))
    ensures r.Success? ==> r.value.status in {Created, MethodNotAllowed, Conflict, UnsupportedMediaType}
    ensures r.Success? && r.value.status != Created ==> r.value.tree == t
    ensures r.Success? && r.value.status == MethodNotAllowed <==>
              admin && bodyEmpty && Lookup(t, NormPath(norm, path)).Success? && Lookup(t, NormPath(norm, path)).value.Some?
    ensures r.Success? && r.value.status == Created ==>
              var p := NormPath(norm, path);
              var (parent, name) := SplitPath(norm, p);
              Lookup(t, p) == Success(None)
              && LookupFolder(t, parent).Success? && LookupFolder(t, parent).value.Some?
              && var f := LookupFolder(t, parent).value.value;
                 CreateChild(t, f, Folder, name).Success?
                 && r.value.tree == CreateChild(t, f, Folder, name).value.0
  {
    var _ :- OnlyAdmin(admin);
    var p := NormPath(norm, path);
    var (parent, name) := SplitPath(norm, p);
    if !bodyEmpty then Success(Reply(UnsupportedMediaType, t))
    else
      var existing :- Lookup(t, p);
      if existing.Some? then Success(Reply(MethodNotAllowed, t))
      else
        var folder :- LookupFolder(t, parent);
        if folder.None? then Success(Reply(Conflict, t))
        else
          match CreateChild(t, folder.value, Folder, name)
          case Failure(e) => Failure(Repo(e))
          case Success((t2, _)) => Success(Reply(Created, t2))
  }

  /** A collection MKCOL creates is a new, empty subfolder of the parent collection, and the
      repository stays well formed. */
  lemma MkcolCreatesSubfolder(t: Tree, norm: string -> string, path: string)
    requires WellFormed(t)
    ensures var r := Mkcol(t, true, norm, path, true);
            r.Success? && r.value.status == Created ==>
              var f := LookupFolder(t, SplitPath(norm, NormPath(norm, path)).0).value.value;
              var c := CreateChild(t, f, Folder, SplitPath(norm, NormPath(norm, path)).1).value;
              WellFormed(r.value.tree) && IsFolder(r.value.tree, c.1) && c.1 in Children(r.value.tree, f)
              && c.1 !in t.objs && r.value.tree.objs[c.1].title == SplitPath(norm, NormPath(norm, path)).1
  {
    var r := Mkcol(t, true, norm, path, true);
    if r.Success? && r.value.status == Created {
      var f := LookupFolder(t, SplitPath(norm, NormPath(norm, path)).0).value.value;
      CreateChildWellFormed(t, f, Folder, SplitPath(norm, NormPath(norm, path)).1);
    }
  }

  // ---------------------------------------------------------------------------
  // PUT
  // ---------------------------------------------------------------------------

  /** PUT's answer, with the document whose content was written. */
  datatype PutReply = PutReply(status: int, tree: Tree, written: Option<Id>)

  /** PUT: an existing folder is 405; an existing document gets the new content (204); a
      missing parent collection is 409; otherwise a document is created under the parent
      and receives the content (201). */
  function Put(t: Tree, admin: bool, norm: string -> string, path: string): (r: Result<PutReply, DavError>)
    requires WellFormed(t)
    ensures !admin ==> r == Failure(Forbidden)
    ensures r.Success? ==> r.value.status in {Created, NoContent, MethodNotAllowed, Conflict}
    ensures r.Success? ==> (r.value.written.Some? <==> r.value.status in {Created, NoContent})
    ensures r.Success? && r.value.status != Created ==> r.value.tree == t
    ensures r.Success? && r.value.status == NoContent ==>
              Lookup(t, NormPath(norm, path)) == Success(r.value.written) && IsDocument(t, r.value.written.value)
    ensures r.Success? && r.value.status == MethodNotAllowed ==>
              exists x :: Lookup(t, NormPath(norm, path)) == Success(Some(x)) && IsFolder(t, x)
    ensures r.Success? && r.value.status == Created ==>
              var (parent, name) := SplitPath(norm, NormPath(norm, path));
              Lookup(t, NormPath(norm, path)) == Success(None)
              && LookupFolder(t, parent).Success? && LookupFolder(t, parent).value.Some?
              && var f := LookupFolder(t, parent).value.value;
                 CreateChild(t, f, Document, name) == Success((r.value.tree, r.value.written.value))
  {
    var _ :- OnlyAdmin(admin);
    var p := NormPath(norm, path);
    var (parent, name) := SplitPath(norm, p);
    var existing :- Lookup(t, p);
    match existing
    case Some(x) =>
      if !IsDocument(t, x) then Success(PutReply(MethodNotAllowed, t, None))
      else Success(PutReply(NoContent, t, Some(x)))
    case None =>
      var folder :- LookupFolder(t, parent);
      if folder.None? then Success(PutReply(Conflict, t, None))
      else
        match CreateChild(t, folder.value, Document, name)
        case Failure(e) => Failure(Repo(e))
        case Success((t2, d)) => Success(PutReply(Created, t2, Some(d)))
  }

  /** Whatever PUT answers, the content lands in a document: an existing one (leaving the
      tree as it was) or a new child of the parent collection. */
  lemma PutWritesDocument(t: Tree, norm: string -> string, path: string)
    requires WellFormed(t)
    ensures var r := Put(t, true, norm, path);
            r.Success? && r.value.written.Some? ==>
              IsDocument(r.value.tree, r.value.written.value) && WellFormed(r.value.tree)
  {
    var r := Put(t, true, norm, path);
    if r.Success? && r.value.status == Created {
      var f := LookupFolder(t, SplitPath(norm, NormPath(norm, path)).0).value.value;
      CreateChildWellFormed(t, f, Document, SplitPath(norm, NormPath(norm, path)).1);
    }
  }

  // ---------------------------------------------------------------------------
  // DELETE
  // ---------------------------------------------------------------------------

  /** DELETE: a missing resource is NotFound; otherwise it is removed with its subtree and
      the answer is 204. */
  function Delete(t: Tree, admin: bool, norm: string -> string, path: string): (r: Result<Reply, DavError>)
    requires WellFormed(t)
    ensures !admin ==> r == Failure(Forbidden)
    ensures admin ==> (r == Failure(NotFound) <==> Lookup(t, NormPath(norm, path)) == Success(None))
    ensures r.Success? ==> r.value.status == NoContent
    ensures r.Success? ==> exists x :: x in t.objs && Lookup(t, NormPath(norm, path)) == Success(Some(x))
                                       && r.value.tree == RemoveSubtree(t, x)
  {
    var _ :- OnlyAdmin(admin);
    var x :- GetObject(t, NormPath(norm, path));
    Success(Reply(NoContent, RemoveSubtree(t, x)))
  }

  // ---------------------------------------------------------------------------
  // COPY, MOVE
  // ---------------------------------------------------------------------------

  datatype Method = Copy | Move

  /** Python's `s[n:]`, empty when `n` is past the end. */
  function Drop(s: string, n: nat): (r: string)
    ensures n <= |s| ==> r == s[n..]
    ensures n > |s| ==> r == ""
  {
    if n <= |s| then s[n..] else ""
  }

  /** COPY and MOVE: the destination path is what follows "<url root>webdav" in the
      Destination header (a missing header is a TypeError). A missing source is NotFound.
      An existing destination with `Overwrite: F` is 412; otherwise it is deleted first and
      the answer becomes 204 instead of 201. A missing destination parent is 409 (and the
      deletion, never committed, is rolled back). COPY copies the source under the
      destination folder with the destination name; MOVE renames it when the folder is its
      parent already and moves it otherwise. */
  function CopyOrMove(t: Tree, admin: bool, m: Method, norm: string -> string, path: string,
                      destination: Option<string>, urlRoot: string, overwrite: Option<string>): (r: Result<Reply, DavError>)
    requires WellFormed(t)
    ensures !admin ==> r == Failure(Forbidden)
    ensures admin && destination.None? ==> r == Failure(TypeError)
    ensures r.Success? ==> r.value.status in {Created, NoContent, PreconditionFailed, Conflict}
    ensures r.Success? && r.value.status in {PreconditionFailed, Conflict} ==> r.value.tree == t
    ensures r.Success? ==>
              var dest := NormPath(norm, Drop(destination.value, |urlRoot + "webdav"|));
              GetObject(t, NormPath(norm, path)).Success? && Lookup(t, dest).Success?
              && (r.value.status == PreconditionFailed <==> Lookup(t, dest).value.Some? && overwrite == Some("F"))
              && (r.value.status == Created ==> Lookup(t, dest).value.None?)
              && (r.value.status == NoContent ==> Lookup(t, dest).value.Some?)
  {
    var _ :- OnlyAdmin(admin);
    var p := NormPath(norm, path);
    if destination.None? then Failure(TypeError)
    else
      var dest := NormPath(norm, Drop(destination.value, |urlRoot + "webdav"|));
      var (destParent, destName) := SplitPath(norm, dest);
      var orig :- GetObject(t, p);
      var destObj :- Lookup(t, dest);
      if destObj.Some? && overwrite == Some("F") then Success(Reply(PreconditionFailed, t))
      else
        var cleared :- (if destObj.Some? then DeleteDestination(t, destObj.value) else Success(t));
        var status := if destObj.Some? then NoContent else Created;
        var folder :- LookupFolder(cleared, destParent);
        if folder.None? then Success(Reply(Conflict, t))
        else if orig !in cleared.objs then Failure(SourceGone)
        else
          var t2 :- Transfer(cleared, m, orig, folder.value, destName);
          Success(Reply(status, t2))
  }

  /** `repository.delete_object` on the destination being overwritten. */
  function DeleteDestination(t: Tree, x: Id): (r: Result<Tree, DavError>)
    requires WellFormed(t) && x in t.objs
    ensures r.Success? ==> WellFormed(r.value) && r.value.objs.Keys == t.objs.Keys - Subtree(t, x)
    ensures r.Failure? <==> IsRoot(t, x)
  {
    match DeleteObject(t, x)
    case Failure(e) => Failure(Repo(e))
    case Success(t2) =>
      DeleteObjectWellFormed(t, x);
      Success(t2)
  }

  /** The COPY or MOVE proper, once the destination folder is known. */
  function Transfer(t: Tree, m: Method, x: Id, folder: Id, name: string): (r: Result<Tree, DavError>)
    requires x in t.objs && forall y :: y in t.objs ==> y < t.next
    ensures m == Move && t.objs[x].parent == Some(folder) ==> r == Success(RenameObject(t, x, name))
    ensures m == Move && t.objs[x].parent != Some(folder) ==> r == Success(MoveObject(t, x, folder, Some(name)))
    ensures m == Copy ==> (r.Success? <==> CopyObject(t, x, folder, Some(name)).Success?)
    ensures m == Copy && r.Success? ==> r.value == CopyObject(t, x, folder, Some(name)).value.0
  {
    match m
    case Copy =>
      (match CopyObject(t, x, folder, Some(name))
       case Failure(e) => Failure(Repo(e))
       case Success((t2, _)) => Success(t2))
    case Move =>
      if t.objs[x].parent == Some(folder) then Success(RenameObject(t, x, name))
      else Success(MoveObject(t, x, folder, Some(name)))
  }

  /** After a MOVE the source sits in the destination folder, under the destination name
      when that name is not empty, whichever of rename or move was used. */
  lemma MoveLandsInFolder(t: Tree, x: Id, folder: Id, name: string)
    requires x in t.objs && forall y :: y in t.objs ==> y < t.next
    ensures var r := Transfer(t, Move, x, folder, name);
            r.Success? && x in r.value.objs && r.value.objs[x].parent == Some(folder)
            && (name != "" ==> r.value.objs[x].title == name)
            && forall y :: y in t.objs && y != x ==> y in r.value.objs && r.value.objs[y] == t.objs[y]
  {
  }

  // ---------------------------------------------------------------------------
  // UNLOCK
  // ---------------------------------------------------------------------------

  /** UNLOCK: a missing resource is NotFound; a locked resource that cannot be unlocked is
      423; otherwise (unlocking if needed) 204. The lock state comes from the repository's
      `is_locked` and `can_unlock`. */
  function Unlock(t: Tree, admin: bool, norm: string -> string, path: string,
                  isLocked: Id -> bool, canUnlock: Id -> bool): (r: Result<int, DavError>)
    requires WellFormed(t)
    ensures !admin ==> r == Failure(Forbidden)
    ensures r.Success? ==> r.value in {NoContent, Locked}
    ensures r.Success? ==> GetObject(t, NormPath(norm, path)).Success?
                           && var x := GetObject(t, NormPath(norm, path)).value;
                           (r.value == Locked <==> isLocked(x) && !canUnlock(x))
    ensures admin ==> (r.Failure? <==> GetObject(t, NormPath(norm, path)).Failure?)
  {
    var _ :- OnlyAdmin(admin);
    var x :- GetObject(t, NormPath(norm, path));
    if isLocked(x) && !canUnlock(x) then Success(Locked) else Success(NoContent)
  }

  /** With the repository's locking stubs (nothing is ever locked), UNLOCK of an existing
      resource always succeeds with 204. */
  lemma UnlockWithStubs(t: Tree, norm: string -> string, path: string)
    requires WellFormed(t)
    ensures var r := Unlock(t, true, norm, path, (x: Id) => IsLocked(t, x), (x: Id) => CanUnlock(t, x));
            GetObject(t, NormPath(norm, path)).Success? ==> r == Success(NoContent)
  {
  }

  // ---------------------------------------------------------------------------
  // The lookup as written
  // ---------------------------------------------------------------------------

  /** The handlers above resolve paths with the corrected lookup. As the source is written,
      the lookup of a path that finds nothing raises (StopIteration, or AttributeError below a
      document) before any answer is given: GET, DELETE and UNLOCK never answer NotFound for
      a missing path, and MKCOL and PUT never reach 201 or 409 (their first lookup is of the
      new path itself). */
  lemma MissingPathRaisesAsWritten(t: Tree, norm: string -> string, path: string,
                                   isLocked: Id -> bool, canUnlock: Id -> bool)
    requires WellFormed(t) && RootFolder(t).Some?
    ensures var p := NormPath(norm, path);
            var raises := SegmentRaised(GetObjectByPathAsWritten(t, RootFolder(t).value, p));
            (GetObject(t, p) == Failure(NotFound) <==> raises)
            && (Delete(t, true, norm, path) == Failure(NotFound) <==> raises)
            && (Unlock(t, true, norm, path, isLocked, canUnlock) == Failure(NotFound) <==> raises)
            && (var r := Mkcol(t, true, norm, path, true);
                r.Success? && r.value.status in {Created, Conflict} ==> raises)
            && (var r := Put(t, true, norm, path);
                r.Success? && r.value.status in {Created, Conflict} ==> raises)
  {
    FromRootAsWritten(t, NormPath(norm, path));
  }

  /** COPY and MOVE look the destination up as written too: a 201 answer, given to a
      destination that does not exist yet, is an exception in the source. */
  lemma NewDestinationRaisesAsWritten(t: Tree, m: Method, norm: string -> string, path: string,
                                      destination: Option<string>, urlRoot: string, overwrite: Option<string>)
    requires WellFormed(t) && RootFolder(t).Some?
    ensures var r := CopyOrMove(t, true, m, norm, path, destination, urlRoot, overwrite);
            r.Success? && r.value.status == Created ==>
              var dest := NormPath(norm, Drop(destination.value, |urlRoot + "webdav"|));
              SegmentRaised(GetObjectByPathAsWritten(t, RootFolder(t).value, dest))
  {
    if destination.Some? {
      FromRootAsWritten(t, NormPath(norm, Drop(destination.value, |urlRoot + "webdav"|)));
    }
  }

  // ---------------------------------------------------------------------------
  // The repository import
  // ---------------------------------------------------------------------------

  /** A request to one of the modelled handlers, with what it carries besides the path. */
  datatype DavRequest =
    | MkcolRequest(bodyEmpty: bool)
    | PutRequest
    | DeleteRequest
    | CopyOrMoveRequest(m: Method, destination: Option<string>, overwrite: Option<string>)
    | UnlockRequest

  /** The handlers behind one entry point, answering with the status alone, and with the
      repository instance the handlers evidently mean to call (its locking stubs included). */
  function Handle(t: Tree, admin: bool, norm: string -> string, path: string, urlRoot: string,
                  req: DavRequest): (r: Result<int, DavError>)
    requires WellFormed(t)
    ensures !admin ==> r == Failure(Forbidden)
    ensures r.Success? ==> r.value in {Created, NoContent, MethodNotAllowed, Conflict, PreconditionFailed, UnsupportedMediaType}
    ensures req == UnlockRequest && r.Success? ==> r.value == NoContent
    ensures req == DeleteRequest && r.Success? ==> r.value == NoContent
  {
    match req
    case MkcolRequest(bodyEmpty) =>
      var x :- Mkcol(t, admin, norm, path, bodyEmpty);
      Success(x.status)
    case PutRequest =>
      var x :- Put(t, admin, norm, path);
      Success(x.status)
    case DeleteRequest =>
      var x :- Delete(t, admin, norm, path);
      Success(x.status)
    case CopyOrMoveRequest(m, destination, overwrite) =>
      var x :- CopyOrMove(t, admin, m, norm, path, destination, urlRoot, overwrite);
      Success(x.status)
    case UnlockRequest =>
      UnlockWithStubs(t, norm, path);
      Unlock(t, admin, norm, path, (x: Id) => IsLocked(t, x), (x: Id) => CanUnlock(t, x))
  }

  /** The handlers as written. views.py imports with `from .. import repository`, which
      binds the module documents/repository.py rather than the `Repository` instance that
      module defines, and the module has none of the instance's methods. A request that
      gets past `only_admin`, MKCOL's body check and the Destination header of COPY and
      MOVE reaches a `repository.` call and raises AttributeError. */
  function HandleAsWritten(admin: bool, req: DavRequest): (r: Result<int, DavError>)
    ensures r == Failure(Forbidden) <==> !admin
    ensures r.Success? <==> admin && req == MkcolRequest(false)
    ensures r.Success? ==> r.value == UnsupportedMediaType
    ensures r == Failure(TypeError) <==> admin && req.CopyOrMoveRequest? && req.destination.None?
    ensures r.Failure? ==> r.error in {Forbidden, TypeError, DavError.AttributeError}
  {
    var _ :- OnlyAdmin(admin);
    match req
    case MkcolRequest(bodyEmpty) =>
      if !bodyEmpty then Success(UnsupportedMediaType) else Failure(DavError.AttributeError)
    case CopyOrMoveRequest(_, destination, _) =>
      if destination.None? then Failure(TypeError) else Failure(DavError.AttributeError)
    case _ => Failure(DavError.AttributeError)
  }

  /** What the import costs, on every tree, path and request: where the handlers as written
      answer at all they answer as the intended ones do, and every answer the intended
      handlers take from the repository (a status other than 415, or NotFound) is an
      AttributeError as written. */
  lemma ImportRaises(t: Tree, admin: bool, norm: string -> string, path: string, urlRoot: string,
                     req: DavRequest)
    requires WellFormed(t)
    ensures var w := HandleAsWritten(admin, req);
            w != Failure(DavError.AttributeError) ==> w == Handle(t, admin, norm, path, urlRoot, req)
    ensures var c := Handle(t, admin, norm, path, urlRoot, req);
            (c.Success? && c.value != UnsupportedMediaType) || c == Failure(NotFound) ==>
              HandleAsWritten(admin, req) == Failure(DavError.AttributeError)
  {
  }
}
