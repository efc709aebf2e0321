/** Folder-level views (documents/views/folders.py): the name check behind the "new" and
    "edit" dialogs, moving and deleting a selection of children, unpacking an uploaded
    archive, and the JSON structure the folder picker navigates.

    The request arguments, the security service and the per-object access checks are
    parameters; flash messages become outcome constructors. */
module Folders {
  import opened Wrappers
  import opened Text
  import opened DocTree
  import Repository
  import DocViews

  /** What the folder views can raise. `AttributeError` records the tree as committed
      before the exception, when a change was committed first. */
  datatype FolderError =
    | TypeError                            // int(None): a missing request argument
    | View(e: DocViews.ViewError)          // int() rejects the text, or an access check fails
    | AttributeError(committed: Option<Tree>)
    | Repo(r: Repository.RepoError)

  // ---------------------------------------------------------------------------
  // check_valid_name
  // ---------------------------------------------------------------------------

  datatype HelpText = AlreadyPresent(name: Option<string>) | CannotRename(name: Option<string>)

  /** The JSON answer: `valid`, and a help text exactly when the name is not valid. */
  datatype NameCheck = NameCheck(valid: bool, helpText: Option<HelpText>)

  /** A child of `p` is titled `title`, unless `title` is the one title an edit sets aside. */
  predicate TitleInUse(t: Tree, p: Id, title: string, except: Option<string>) {
    except != Some(title)
    && exists y :: y in t.objs && t.objs[y].parent == Some(p) && t.objs[y].title == title
  }

  /** The titles of `p.children`. */
  function ExistingTitles(t: Tree, p: Id): (r: set<string>)
    requires WellFormed(t)
    ensures forall s :: s in r <==> exists y :: y in t.objs && t.objs[y].parent == Some(p) && t.objs[y].title == s
  {
    var r := set y | y in Children(t, p) :: t.objs[y].title;
    assert forall y :: y in t.objs && t.objs[y].parent == Some(p) ==> t.objs[y].title in r;
    r
  }

  function Answer(existing: set<string>, title: Option<string>, help: HelpText): (r: NameCheck)
    ensures r.valid <==> title.None? || title.value !in existing
    ensures r.helpText.Some? <==> !r.valid
    ensures r.helpText.Some? ==> r.helpText.value == help
  {
    var valid := title.None? || title.value !in existing;
    NameCheck(valid, if valid then None else Some(help))
  }

  /** The `action` values `check_valid_name` knows. */
  datatype NameAction = NewIn | EditFolder | EditDocument | UnknownAction

  function ParseAction(action: Option<string>): (a: NameAction)
    ensures a == NewIn <==> action == Some("new")
    ensures a == EditFolder <==> action == Some("folder-edit")
    ensures a == EditDocument <==> action == Some("document-edit")
  {
    if action == Some("new") then NewIn
    else if action == Some("folder-edit") then EditFolder
    else if action == Some("document-edit") then EditDocument
    else UnknownAction
  }

  /** `check_valid_name`: the object is fetched as a document for "document-edit" and as a
      folder otherwise, then read-checked. For "new" the name must be free among the
      object's children; for an edit it must be free among its siblings, the object's own
      title excepted. Any other action is an InternalServerError. */
  function CheckValidName(t: Tree, objectId: Option<string>, action: Option<string>, title: Option<string>,
                          running: bool, admin: bool, hasAccess: Id -> bool): (r: Result<NameCheck, FolderError>)
    requires WellFormed(t)
    ensures objectId.None? ==> r == Failure(TypeError)
    ensures objectId.Some? && PyInt(objectId.value).None? ==> r == Failure(View(DocViews.ValueError))
    ensures r.Success? ==> ParseAction(action) != UnknownAction
    ensures r.Success? ==> objectId.Some? && PyInt(objectId.value).Some? && PyInt(objectId.value).value >= 0
    ensures r.Success? ==> (r.value.helpText.Some? <==> !r.value.valid)
    ensures r.Success? && ParseAction(action) == NewIn ==>
              var x := PyInt(objectId.value).value as nat;
              IsFolder(t, x) && (!running || admin || hasAccess(x))
              && (r.value.valid <==> title.None? || !TitleInUse(t, x, title.value, None))
    ensures r.Success? && ParseAction(action) != NewIn ==>
              var x := PyInt(objectId.value).value as nat;
              x in t.objs && t.objs[x].parent.Some? && (!running || admin || hasAccess(x))
              && (r.value.valid <==> title.None? || !TitleInUse(t, t.objs[x].parent.value, title.value, Some(t.objs[x].title)))
    ensures objectId.Some? && PyInt(objectId.value).Some? && PyInt(objectId.value).value >= 0
            && ParseAction(action) == UnknownAction
            && IsFolder(t, PyInt(objectId.value).value as nat)
            && (!running || admin || hasAccess(PyInt(objectId.value).value as nat))
            ==> r == Failure(View(DocViews.InternalServerError))
  {
    if objectId.None? then Failure(TypeError)
    else match PyInt(objectId.value)
      case None => Failure(View(DocViews.ValueError))
      case Some(n) =>
        var a := ParseAction(action);
        var k := if a == EditDocument then Document else Folder;
        var present := n >= 0 && Repository.OfKind(t, n as nat, k);
        match DocViews.CheckReadAccess(present, running, admin, present && hasAccess(n as nat))
        case Failure(e) => Failure(View(e))
        case Success(_) => NameCheckAt(t, n as nat, a, title)
  }

  /** The name check once the object `x` is fetched. */
  function NameCheckAt(t: Tree, x: Id, a: NameAction, title: Option<string>): (r: Result<NameCheck, FolderError>)
    requires WellFormed(t) && x in t.objs
    ensures r.Success? ==> a != UnknownAction && (r.value.helpText.Some? <==> !r.value.valid)
    ensures r.Success? && a == NewIn ==> (r.value.valid <==> title.None? || !TitleInUse(t, x, title.value, None))
    ensures r.Success? && a != NewIn ==>
              t.objs[x].parent.Some?
              && (r.value.valid <==> title.None? || !TitleInUse(t, t.objs[x].parent.value, title.value, Some(t.objs[x].title)))
    ensures a == UnknownAction ==> r == Failure(View(DocViews.InternalServerError))
  {
    if a == NewIn then
      Success(Answer(ExistingTitles(t, x), title, AlreadyPresent(title)))
    else if a == EditFolder || a == EditDocument then
      match t.objs[x].parent
      case None => Failure(FolderError.AttributeError(None))
      case Some(p) => Success(Answer(ExistingTitles(t, p) - {t.objs[x].title}, title, CannotRename(title)))
    else Failure(View(DocViews.InternalServerError))
  }

  /** A name valid for "new" is exactly one under which a child can be created without
      breaking the unique sibling-title constraint. */
  lemma NewNameCreatable(t: Tree, objectId: string, title: string, k: Kind, running: bool, admin: bool, hasAccess: Id -> bool)
    requires WellFormed(t)
    requires CheckValidName(t, Some(objectId), Some("new"), Some(title), running, admin, hasAccess).Success?
    ensures var x := PyInt(objectId).value as nat;
            CheckValidName(t, Some(objectId), Some("new"), Some(title), running, admin, hasAccess).value.valid
            <==> Repository.CreateChild(t, x, k, title).Success?
  {
  }

  /** A name valid for an edit is exactly one that, given to the object, keeps sibling titles
      unique. */
  lemma EditNameKeepsTitlesUnique(t: Tree, objectId: string, action: string, title: string,
                                  running: bool, admin: bool, hasAccess: Id -> bool)
    requires WellFormed(t) && action in {"folder-edit", "document-edit"}
    requires CheckValidName(t, Some(objectId), Some(action), Some(title), running, admin, hasAccess).Success?
    ensures var x := PyInt(objectId).value as nat;
            CheckValidName(t, Some(objectId), Some(action), Some(title), running, admin, hasAccess).value.valid
            <==> UniqueTitles(Repository.RenameObject(t, x, title))
  {
    var x := PyInt(objectId).value as nat;
    var p := t.objs[x].parent.value;
    var r := Repository.RenameObject(t, x, title);
    if TitleInUse(t, p, title, Some(t.objs[x].title)) {
      var y :| y in t.objs && t.objs[y].parent == Some(p) && t.objs[y].title == title;
      assert y != x;
      assert r.objs[y].title == title == r.objs[x].title;
    } else {
      forall a, b | a in r.objs && b in r.objs && a != b && r.objs[a].parent.Some? && r.objs[a].parent == r.objs[b].parent
        ensures r.objs[a].title != r.objs[b].title
      {
        if a == x {
          assert t.objs[b].parent == Some(p);
        } else if b == x {
          assert t.objs[a].parent == Some(p);
        }
      }
    }
  }

  // ---------------------------------------------------------------------------
  // move_multiple
  // ---------------------------------------------------------------------------

  /** The flashed outcomes of `move_multiple`; only `Moved` comes with a changed tree. */
  datatype MoveOutcome =
    | NothingSelected                     // "no elements selected"
    | NoDestination                       // the target is not an integer
    | SameFolder                          // "source and destination folder are identical"
    | SourceNotWritable
    | TargetNotWritable(target: Id)
    | IntoItself(target: Id)              // the target lies inside a moved folder
    | Clashes(items: seq<Id>)             // titles already present in the target
    | Moved(tree: Tree, target: Id, folders: nat, documents: nat)

  lemma InConcat(a: seq<Id>, b: seq<Id>)
    ensures forall x :: x in a + b <==> x in a || x in b
  {
  }

  lemma SelectedChildren(t: Tree, f: Id, folders: seq<Id>, docs: seq<Id>)
    requires forall x :: x in folders ==> IsFolder(t, x) && t.objs[x].parent == Some(f)
    requires forall x :: x in docs ==> IsDocument(t, x) && t.objs[x].parent == Some(f)
    ensures forall x :: x in folders + docs ==> x in t.objs && t.objs[x].parent == Some(f)
  {
    InConcat(folders, docs);
  }

  function ItemSet(s: seq<Id>): (r: set<Id>)
    ensures forall x :: x in r <==> x in s
  {
    set x | x in s
  }

  /** The selected objects whose title a child of `dest` already carries: the ones whose
      nested re-parenting fails on the unique constraint. */
  function Clashing(t: Tree, items: seq<Id>, dest: Id): (r: seq<Id>)
    ensures forall x :: x in r <==> x in items && x in t.objs && Repository.TitleTaken(t, dest, t.objs[x].title)
    decreases |items|
  {
    if |items| == 0 then []
    else
      var rest := Clashing(t, items[1..], dest);
      assert forall x :: x in items <==> x == items[0] || x in items[1..];
      if items[0] in t.objs && Repository.TitleTaken(t, dest, t.objs[items[0]].title) then [items[0]] + rest else rest
  }

  /** Children of another folder clash with `dest` exactly when `NoClash` fails. */
  lemma ClashingIsNoClash(t: Tree, items: seq<Id>, f: Id, dest: Id)
    requires forall x :: x in items ==> x in t.objs && t.objs[x].parent == Some(f)
    requires f != dest
    ensures Clashing(t, items, dest) == [] <==> Repository.NoClash(t, ItemSet(items), dest)
  {
    if Clashing(t, items, dest) != [] {
      var x := Clashing(t, items, dest)[0];
      assert x in Clashing(t, items, dest);
      var y :| y in t.objs && t.objs[y].parent == Some(dest) && t.objs[y].title == t.objs[x].title;
      assert y !in ItemSet(items);
    } else {
      forall x, y | x in ItemSet(items) && x in t.objs && y in t.objs && y !in ItemSet(items) && t.objs[y].parent == Some(dest)
        ensures t.objs[x].title != t.objs[y].title
      {
        assert x !in Clashing(t, items, dest);
      }
    }
  }

  /** Documents are never ancestors: a walk from a folder that avoids the moved folders
      avoids the moved documents too. */
  lemma {:induction false} AvoidsDocuments(t: Tree, y: Id, fs: set<Id>, ds: set<Id>, n: nat)
    requires WellFormed(t) && IsFolder(t, y) && Repository.Avoids(t, y, fs, n)
    requires forall d :: d in ds ==> IsDocument(t, d)
    ensures Repository.Avoids(t, y, fs + ds, n)
    decreases n
  {
    match t.objs[y].parent
    case None =>
    case Some(p) => AvoidsDocuments(t, p, fs, ds, n - 1);
  }

  /** Every moved object of the source folder ends up a child of the target, and the tree
      stays well formed. */
  lemma MovedWellFormed(t: Tree, f: Id, folders: seq<Id>, docs: seq<Id>, g: Id)
    requires WellFormed(t) && IsFolder(t, g) && g != f
    requires forall x :: x in folders ==> IsFolder(t, x) && t.objs[x].parent == Some(f)
    requires forall x :: x in docs ==> IsDocument(t, x) && t.objs[x].parent == Some(f)
    requires Repository.Avoids(t, g, ItemSet(folders), t.bound)
    requires Clashing(t, folders + docs, g) == []
    ensures WellFormed(Repository.Reparent(t, ItemSet(folders + docs), g))
  {
    var items := folders + docs;
    InConcat(folders, docs);
    assert ItemSet(items) == ItemSet(folders) + ItemSet(docs);
    AvoidsDocuments(t, g, ItemSet(folders), ItemSet(docs), t.bound);
    ClashingIsNoClash(t, items, f, g);
    Repository.ReparentWellFormed(t, ItemSet(items), g);
  }

  /** Clears the parent of every object of `s` (the source's re-parenting to None). */
  function Detach(t: Tree, s: set<Id>): (r: Tree)
    ensures r.objs.Keys == t.objs.Keys
    ensures forall y :: y in t.objs && y in s ==> r.objs[y] == t.objs[y].(parent := None)
    ensures forall y :: y in t.objs && y !in s ==> r.objs[y] == t.objs[y]
  {
    t.(objs := map y | y in t.objs :: if y in s then t.objs[y].(parent := None) else t.objs[y])
  }

  /** The folder an integer target names, if any (`get_folder_by_id`). */
  function TargetFolder(t: Tree, n: int): (r: Option<Id>)
    ensures r.Some? <==> n >= 0 && IsFolder(t, n as nat)
    ensures r.Some? ==> r.value as int == n
  {
    if n >= 0 && IsFolder(t, n as nat) then Some(n as nat) else None
  }

  /** The last steps of `move_multiple`, towards an existing folder `g`: the walk up from
      `g` refuses a target inside a moved folder, then one clash cancels the whole move. */
  function MoveInto(t: Tree, f: Id, folders: seq<Id>, docs: seq<Id>, g: Id): (r: MoveOutcome)
    requires WellFormed(t) && IsFolder(t, g) && g != f
    requires forall x :: x in folders ==> IsFolder(t, x) && t.objs[x].parent == Some(f)
    requires forall x :: x in docs ==> IsDocument(t, x) && t.objs[x].parent == Some(f)
    ensures r.IntoItself? || r.Clashes? || r.Moved?
    ensures r.IntoItself? <==> exists x :: x in folders && g in Repository.Subtree(t, x)
    ensures r.IntoItself? ==> r.target == g
    ensures r.Clashes? ==>
              r.items != [] && forall x :: x in r.items <==> x in folders + docs && x in t.objs && Repository.TitleTaken(t, g, t.objs[x].title)
    ensures r.Moved? ==>
              r.target == g
              && Repository.NoClash(t, ItemSet(folders + docs), g)
              && r.tree == Repository.Reparent(t, ItemSet(folders + docs), g)
              && r.folders == |folders| && r.documents == |docs|
              && WellFormed(r.tree)
    ensures r.Moved? ==> Moves(t, f, r.tree, g)
  {
    var items := folders + docs;
    Repository.AvoidsAbove(t, g, ItemSet(folders), t.bound);
    if !Repository.Avoids(t, g, ItemSet(folders), t.bound) then IntoItself(g)
    else
      var clashes := Clashing(t, items, g);
      SelectedChildren(t, f, folders, docs);
      ClashingIsNoClash(t, items, f, g);
      if clashes != [] then Clashes(clashes)
      else
        MovedWellFormed(t, f, folders, docs, g);
        MovedLeaveSource(t, f, folders, docs, g);
        Moved(Repository.Reparent(t, ItemSet(items), g), g, |folders|, |docs|)
  }

  /** The target folder id as `int(request.form.get('target-folder'))` reads it. */
  function TargetId(targetArg: Option<string>): (r: Result<Option<int>, FolderError>)
    ensures targetArg.None? <==> r == Failure(TypeError)
    ensures targetArg.Some? ==> r == Success(PyInt(targetArg.value))
  {
    if targetArg.None? then Failure(TypeError) else Success(PyInt(targetArg.value))
  }

  /** `move_multiple` once the selection is known: `folders` and `docs` are the selected
      children of `f`. `writable` is the WRITE permission on a folder (or on no folder, when
      the target id names none); `itemWritable` is `check_write_access` on a moved object.
      Refusals change nothing; a single clash cancels the whole move. */
  function MoveSelected(t: Tree, f: Id, folders: seq<Id>, docs: seq<Id>, targetArg: Option<string>,
                        writable: Option<Id> -> bool, itemWritable: Id -> bool): (r: Result<MoveOutcome, FolderError>)
    requires WellFormed(t) && IsFolder(t, f)
    requires forall x :: x in folders ==> IsFolder(t, x) && t.objs[x].parent == Some(f)
    requires forall x :: x in docs ==> IsDocument(t, x) && t.objs[x].parent == Some(f)
    ensures r == Success(NothingSelected) <==> |folders| + |docs| == 0
    ensures r == Success(NoDestination) <==>
              |folders| + |docs| > 0 && TargetId(targetArg) == Success(None)
    ensures r == Success(SameFolder) <==>
              |folders| + |docs| > 0 && TargetId(targetArg) == Success(Some(f as int))
    ensures r.Success? && (r.value.IntoItself? || r.value.Clashes? || r.value.Moved?) ==>
              TargetId(targetArg).Success? && TargetId(targetArg).value.Some?
              && var g := TargetFolder(t, TargetId(targetArg).value.value);
                 g.Some? && g.value != f && writable(Some(f)) && writable(g)
                 && (forall x :: x in folders + docs ==> itemWritable(x))
                 && r.value == MoveInto(t, f, folders, docs, g.value)
  {
    var items := folders + docs;
    if |items| == 0 then Success(NothingSelected)
    else
      match TargetId(targetArg)
      case Failure(e) => Failure(e)
      case Success(n) =>
      if n.None? then Success(NoDestination)
      else
        var target := TargetFolder(t, n.value);
        if target == Some(f) then Success(SameFolder)
        else if !writable(Some(f)) then Success(SourceNotWritable)
        else if !writable(target) then
          // the refusal message reads `target_folder.title`
          if target.None? then Failure(FolderError.AttributeError(None)) else Success(TargetNotWritable(target.value))
        else if exists x :: x in items && !itemWritable(x) then Failure(View(DocViews.Forbidden))
        else if target.None? then
          // nothing to walk and no clash on a NULL parent: the items are committed
          // parentless, then the success message reads `target_folder.title`
          Failure(FolderError.AttributeError(Some(Detach(t, ItemSet(items)))))
        else Success(MoveInto(t, f, folders, docs, target.value))
  }

  /** `move_multiple`: the selection is parsed and checked first (`get_selected_objects`),
      then moved as above. */
  function MoveMultiple(t: Tree, f: Id, sel: seq<string>, targetArg: Option<string>,
                        running: bool, admin: bool, hasAccess: Id -> bool,
                        writable: Option<Id> -> bool, itemWritable: Id -> bool): (r: Result<MoveOutcome, FolderError>)
    requires WellFormed(t) && IsFolder(t, f)
    ensures DocViews.GetSelectedObjects(t, f, sel, running, admin, hasAccess).Failure? ==>
              r == Failure(View(DocViews.GetSelectedObjects(t, f, sel, running, admin, hasAccess).error))
    ensures r == Success(NothingSelected) <==>
              DocViews.GetSelectedObjects(t, f, sel, running, admin, hasAccess).Success?
              && DocViews.SelectedIds(sel, "cmis:folder").value == [] && DocViews.SelectedIds(sel, "cmis:document").value == []
    ensures r.Success? && r.value.Moved? ==>
              WellFormed(r.value.tree)
              && r.value.folders == |DocViews.SelectedIds(sel, "cmis:folder").value|
              && r.value.documents == |DocViews.SelectedIds(sel, "cmis:document").value|
              && Moves(t, f, r.value.tree, r.value.target)
  {
    match DocViews.GetSelectedObjects(t, f, sel, running, admin, hasAccess)
    case Failure(e) => Failure(View(e))
    case Success(picked) =>
      PickedChildren(t, f, sel, running, admin, hasAccess);
      var r := MoveSelected(t, f, picked.0, picked.1, targetArg, writable, itemWritable);
      r
  }

  lemma PickedChildren(t: Tree, f: Id, sel: seq<string>, running: bool, admin: bool, hasAccess: Id -> bool)
    requires DocViews.GetSelectedObjects(t, f, sel, running, admin, hasAccess).Success?
    ensures var picked := DocViews.GetSelectedObjects(t, f, sel, running, admin, hasAccess).value;
            (forall x :: x in picked.0 ==> IsFolder(t, x) && t.objs[x].parent == Some(f))
            && (forall x :: x in picked.1 ==> IsDocument(t, x) && t.objs[x].parent == Some(f))
  {
  }

  /** Every child of `f` in `t` is still there in `m`, either still under `f` or moved under
      `g`, which lies below none of the moved objects. */
  predicate Moves(t: Tree, f: Id, m: Tree, g: Id) {
    forall x :: x in t.objs && t.objs[x].parent == Some(f) ==>
      x in m.objs && (m.objs[x].parent == Some(f) || (m.objs[x].parent == Some(g) && g !in Repository.Subtree(t, x)))
  }

  /** After the move, the objects that left the source folder sit under the target, which
      lies below none of them. */
  lemma MovedLeaveSource(t: Tree, f: Id, folders: seq<Id>, docs: seq<Id>, g: Id)
    requires WellFormed(t) && IsFolder(t, g)
    requires forall x :: x in docs ==> IsDocument(t, x)
    requires forall x :: x in folders ==> g !in Repository.Subtree(t, x)
    ensures Moves(t, f, Repository.Reparent(t, ItemSet(folders + docs), g), g)
  {
    var m := Repository.Reparent(t, ItemSet(folders + docs), g);
    forall x | x in t.objs && t.objs[x].parent == Some(f) && m.objs[x].parent != Some(f)
      ensures m.objs[x].parent == Some(g) && g !in Repository.Subtree(t, x)
    {
      assert x in ItemSet(folders + docs);
      InConcat(folders, docs);
      if x !in folders && g in Repository.Subtree(t, x) {
        DocumentHasNoDescendants(t, x, g);
      }
    }
  }

  /** Nothing lies strictly below a document. */
  lemma DocumentHasNoDescendants(t: Tree, x: Id, y: Id)
    requires WellFormed(t) && IsDocument(t, x) && y in Repository.Subtree(t, x)
    ensures y == x
  {
    if y != x {
      DocumentNotAbove(t, y, x, t.bound);
    }
  }

  lemma {:induction false} DocumentNotAbove(t: Tree, y: Id, x: Id, n: nat)
    requires WellFormed(t) && IsDocument(t, x) && y != x && y in t.objs
    ensures !Repository.Above(t, y, x, n)
    decreases n
  {
    match t.objs[y].parent
    case None =>
    case Some(p) =>
      if p != x && n > 0 {
        DocumentNotAbove(t, p, x, n - 1);
      }
  }

  // ---------------------------------------------------------------------------
  // delete_multiple
  // ---------------------------------------------------------------------------

  /** The flashed message of `delete_multiple`. */
  datatype DeleteMessage =
    | NoObjectDeleted                          // flashed as an error
    | FilesDeleted(files: nat)
    | FoldersDeleted(folders: nat)
    | FilesAndFoldersDeleted(files: nat, folders: nat)

  /** `repository.delete_object` on each object in turn. An object already gone (selected
      twice) is no longer in its parent's collection, and removing it raises ValueError. */
  function DeleteAll(t: Tree, items: seq<Id>): (r: Result<Tree, FolderError>)
    ensures r.Success? ==> forall x :: x in items ==> x !in r.value.objs
    ensures r.Success? ==> forall y :: y in r.value.objs ==> y in t.objs && r.value.objs[y] == t.objs[y]
    ensures r.Success? ==> r.value.next == t.next && r.value.bound == t.bound
    decreases |items|
  {
    if |items| == 0 then Success(t)
    else if items[0] !in t.objs then Failure(View(DocViews.ValueError))
    else match Repository.DeleteObject(t, items[0])
      case Failure(e) => Failure(Repo(e))
      case Success(t2) =>
        var rest := DeleteAll(t2, items[1..]);
        assert forall x :: x in items ==> x == items[0] || x in items[1..];
        rest
  }

  /** Distinct children of one folder can all be deleted, and the tree stays well formed. */
  lemma {:induction false} DeleteSiblings(t: Tree, f: Id, items: seq<Id>)
    requires WellFormed(t)
    requires forall i, j :: 0 <= i < j < |items| ==> items[i] != items[j]
    requires forall x :: x in items ==> x in t.objs && t.objs[x].parent == Some(f)
    ensures DeleteAll(t, items).Success? && WellFormed(DeleteAll(t, items).value)
    decreases |items|
  {
    if |items| > 0 {
      var x := items[0];
      Repository.DeleteObjectWellFormed(t, x);
      var t2 := Repository.DeleteObject(t, x).value;
      forall y | y in items[1..] ensures y in t2.objs && t2.objs[y].parent == Some(f) {
        assert y in Children(t, f) && y != x;
      }
      DeleteSiblings(t2, f, items[1..]);
    }
  }

  /** The deletions and the message of `delete_multiple` for the selected `folders` and
      `docs`: documents go first, and the message counts each kind. */
  function DeleteSelected(t: Tree, folders: seq<Id>, docs: seq<Id>): (r: Result<(Tree, DeleteMessage), FolderError>)
    ensures r.Success? ==> (r.value.1 == NoObjectDeleted <==> |folders| + |docs| == 0)
    ensures r.Success? && |docs| > 0 && |folders| > 0 ==> r.value.1 == FilesAndFoldersDeleted(|docs|, |folders|)
    ensures r.Success? && |docs| > 0 && |folders| == 0 ==> r.value.1 == FilesDeleted(|docs|)
    ensures r.Success? && |docs| == 0 && |folders| > 0 ==> r.value.1 == FoldersDeleted(|folders|)
    ensures r.Success? ==> forall x :: x in docs + folders ==> x !in r.value.0.objs
    ensures r.Success? ==> forall y :: y in r.value.0.objs ==> y in t.objs && r.value.0.objs[y] == t.objs[y]
    ensures r.Failure? <==> DeleteAll(t, docs + folders).Failure?
  {
    match DeleteAll(t, docs + folders)
    case Failure(e) => Failure(e)
    case Success(t2) =>
      var msg :=
        if |docs| + |folders| == 0 then NoObjectDeleted
        else if |docs| > 0 && |folders| > 0 then FilesAndFoldersDeleted(|docs|, |folders|)
        else if |docs| > 0 then FilesDeleted(|docs|)
        else FoldersDeleted(|folders|);
      Success((t2, msg))
  }

  /** `delete_multiple`: a write check on the folder, then the selection, then the deletions;
      on a well-formed selection (no object picked twice) every deletion succeeds and the
      tree stays well formed. */
  function DeleteMultiple(t: Tree, f: Id, sel: seq<string>, running: bool, admin: bool,
                          hasAccess: Id -> bool, permitted: Id -> bool): (r: Result<(Tree, DeleteMessage), FolderError>)
    requires WellFormed(t) && IsFolder(t, f)
    ensures DocViews.CheckPermissionAccess(true, running, admin, hasAccess(f), permitted(f)).Failure? ==>
              r == Failure(View(DocViews.Forbidden))
    ensures DocViews.CheckPermissionAccess(true, running, admin, hasAccess(f), permitted(f)).Success? ==>
              match DocViews.GetSelectedObjects(t, f, sel, running, admin, hasAccess)
              case Failure(e) => r == Failure(View(e))
              case Success(picked) =>
                r == DeleteSelected(t, picked.0, picked.1)
                && ((forall i, j :: 0 <= i < j < |picked.1 + picked.0| ==> (picked.1 + picked.0)[i] != (picked.1 + picked.0)[j])
                    ==> r.Success? && WellFormed(r.value.0))
  {
    match DocViews.CheckPermissionAccess(true, running, admin, hasAccess(f), permitted(f))
    case Failure(e) => Failure(View(e))
    case Success(_) =>
      match DocViews.GetSelectedObjects(t, f, sel, running, admin, hasAccess)
      case Failure(e) => Failure(View(e))
      case Success(picked) =>
        var items := picked.1 + picked.0;
        PickedChildren(t, f, sel, running, admin, hasAccess);
        InConcat(picked.1, picked.0);
        if forall i, j :: 0 <= i < j < |items| ==> items[i] != items[j] then
          DeleteSiblings(t, f, items);
          DeleteSelected(t, picked.0, picked.1)
        else DeleteSelected(t, picked.0, picked.1)
  }

  // ---------------------------------------------------------------------------
  // Archive upload: ARCHIVE_IGNORE_FILES and explore_archive
  // ---------------------------------------------------------------------------

  /** The part of an entry name the prefix `(?:.*\/)?` may consume: nothing, or anything up
      to and including a "/". Python 2's `fnmatch.translate` appends the flags `(?ms)`,
      which apply to the whole pattern, so "." matches newlines here too. */
  predicate DirPrefix(a: string) {
    a == [] || a[|a| - 1] == '/'
  }

  /** The `__MACOSX` directory pattern, at any depth. */
  predicate InMacOsxDir(name: string) {
    exists i :: 0 <= i <= |name| && DirPrefix(name[..i]) && "__MACOSX/" <= name[i..]
  }

  /** `.DS_Store` at any depth. */
  predicate IsDsStore(name: string) {
    exists i :: 0 <= i <= |name| && DirPrefix(name[..i]) && name[i..] == ".DS_Store"
  }

  /** An entry the upload skips: one of the two patterns above, or a directory entry
      (the pattern for a name ending in "/"). */
  predicate Ignored(name: string) {
    InMacOsxDir(name) || IsDsStore(name) || EndsWith(name, "/")
  }

  /** What `explore_archive` yields: the uploaded file itself, or one archive member with the
      directories leading to it. */
  datatype Upload = Whole | Member(dirs: seq<string>, filename: string)

  /** The `(filepath, filename)` split of one entry name: `split("/")`, then `pop()`. */
  function SplitEntry(name: string): (r: Upload)
    ensures r.Member? && Join(r.dirs + [r.filename], '/') == name
    ensures '/' !in r.filename && forall i :: 0 <= i < |r.dirs| ==> '/' !in r.dirs[i]
  {
    var parts := Split(name, '/');
    assert parts == parts[..|parts| - 1] + [parts[|parts| - 1]];
    Member(parts[..|parts| - 1], parts[|parts| - 1])
  }

  /** The entry names that are not skipped, in archive order; `KeptMembers` says which. */
  function Kept(entries: seq<string>): (r: seq<string>)
    ensures |r| <= |entries|
  {
    if |entries| == 0 then []
    else
      var rest := Kept(entries[1..]);
      if Ignored(entries[0]) then rest else [entries[0]] + rest
  }

  /** The kept names are exactly the entries that are not skipped. */
  lemma {:induction false} KeptMembers(entries: seq<string>)
    ensures forall x :: x in Kept(entries) <==> x in entries && !Ignored(x)
    decreases |entries|
  {
    if |entries| > 0 {
      KeptMembers(entries[1..]);
      assert forall x :: x in entries <==> x == entries[0] || x in entries[1..];
    }
  }

  /** Filtering distributes over concatenation, so kept entries keep their order. */
  lemma {:induction false} KeptAppend(a: seq<string>, b: seq<string>)
    ensures Kept(a + b) == Kept(a) + Kept(b)
    decreases |a|
  {
    if |a| > 0 {
      var ab := a + b;
      assert ab[0] == a[0] && ab[1..] == a[1..] + b;
      KeptAppend(a[1..], b);
      var h := if Ignored(a[0]) then [] else [a[0]];
      assert Kept(ab) == h + Kept(a[1..] + b);
      assert Kept(a) == h + Kept(a[1..]);
    } else {
      assert a + b == b;
    }
  }

  /** `explore_archive`: without `uncompress`, or for a file that is not a zip archive, the
      file itself; otherwise one member per entry that is not skipped, in archive order,
      whose directories and file name join back into the entry name. */
  function ExploreArchive(uncompress: bool, isZip: bool, entries: seq<string>): (r: seq<Upload>)
    ensures !uncompress || !isZip ==> r == [Whole]
    ensures uncompress && isZip ==>
              |r| == |Kept(entries)|
              && forall j :: 0 <= j < |r| ==>
                   r[j].Member? && Join(r[j].dirs + [r[j].filename], '/') == Kept(entries)[j]
                   && '/' !in r[j].filename && !Ignored(Kept(entries)[j])
  {
    if !uncompress || !isZip then [Whole]
    else
      var kept := Kept(entries);
      KeptMembers(entries);
      assert forall j :: 0 <= j < |kept| ==> kept[j] in kept;
      seq(|kept|, j requires 0 <= j < |kept| => SplitEntry(kept[j]))
  }

  /** An entry built from directory names and a file name splits back into them. */
  lemma SplitEntryRoundTrip(dirs: seq<string>, filename: string)
    requires '/' !in filename && forall i :: 0 <= i < |dirs| ==> '/' !in dirs[i]
    ensures SplitEntry(Join(dirs + [filename], '/')) == Member(dirs, filename)
  {
    var parts := dirs + [filename];
    forall i | 0 <= i < |parts| ensures '/' !in parts[i] {
      if i < |dirs| {
        assert parts[i] == dirs[i];
      }
    }
    SplitJoin(parts, '/');
    assert parts[..|parts| - 1] == dirs && parts[|parts| - 1] == filename;
    assert Split(Join(parts, '/'), '/') == parts;
  }

  /** The skip rules on sample names. */
  lemma IgnoredExamples()
    ensures Ignored("__MACOSX/a.txt") && Ignored("photos/__MACOSX/._a.jpg")
    ensures Ignored(".DS_Store") && Ignored("photos/.DS_Store") && Ignored("photos/")
  {
    assert DirPrefix("__MACOSX/a.txt"[..0]) && "__MACOSX/" <= "__MACOSX/a.txt"[0..];
    assert DirPrefix("photos/__MACOSX/._a.jpg"[..7]) && "__MACOSX/" <= "photos/__MACOSX/._a.jpg"[7..];
    assert ".DS_Store"[0..] == ".DS_Store" && DirPrefix(".DS_Store"[..0]);
    assert "photos/.DS_Store"[7..] == ".DS_Store" && DirPrefix("photos/.DS_Store"[..7]);
  }

  lemma MacOsxHasSlash(s: string)
    ensures "__MACOSX/" <= s ==> '/' in s
  {
    if "__MACOSX/" <= s {
      assert s[8] == '/';
    }
  }

  lemma PrefixSlash(name: string, i: nat)
    requires i <= |name|
    ensures i > 0 && DirPrefix(name[..i]) ==> '/' in name
  {
    if i > 0 {
      assert name[..i][i - 1] == name[i - 1];
    }
  }

  /** A name without any "/" is skipped only when it is exactly ".DS_Store": the patterns
      match whole path components, never the tail of one. */
  lemma SlashFreeIgnored(name: string)
    requires '/' !in name
    ensures Ignored(name) <==> name == ".DS_Store"
  {
    forall i | 0 <= i <= |name| && DirPrefix(name[..i])
      ensures i == 0
    {
      PrefixSlash(name, i);
    }
    assert name == name[0..];
    assert !InMacOsxDir(name) by {
      forall i | 0 <= i <= |name| && DirPrefix(name[..i])
        ensures !("__MACOSX/" <= name[i..])
      {
        assert name[i..] == name;
        MacOsxHasSlash(name);
      }
    }
    assert !EndsWith(name, "/") by {
      if |name| > 0 {
        assert name[|name| - 1..][0] == name[|name| - 1] && name[|name| - 1] in name;
      }
    }
    if name == ".DS_Store" {
      assert DirPrefix(name[..0]) && name[0..] == ".DS_Store";
      assert IsDsStore(name);
    }
  }

  // ---------------------------------------------------------------------------
  // folder_json
  // ---------------------------------------------------------------------------

  /** One `{id, url, title}` entry; the url is derived from the id. */
  datatype Entry = Entry(id: Id, title: string)

  datatype Listing = Listing(selectable: bool, breadcrumbs: seq<Entry>, folders: seq<Entry>)

  predicate SortedByTitle(s: seq<Entry>) {
    forall i :: 0 <= i < |s| - 1 ==> LexLe(s[i].title, s[i + 1].title)
  }

  function InsertByTitle(e: Entry, s: seq<Entry>): (r: seq<Entry>)
    requires SortedByTitle(s)
    ensures SortedByTitle(r)
    ensures multiset(r) == multiset(s) + multiset{e}
    ensures |r| > 0 && (r[0] == e || (|s| > 0 && r[0] == s[0]))
    decreases |s|
  {
    if |s| == 0 || LexLe(e.title, s[0].title) then [e] + s
    else
      LexLeTotal(e.title, s[0].title);
      var rest := InsertByTitle(e, s[1..]);
      assert s == [s[0]] + s[1..];
      [s[0]] + rest
  }

  /** `sorted(..., key=lambda f: f.title)`. Sibling titles are unique, so the stability of
      Python's sort plays no part. */
  function SortByTitle(s: seq<Entry>): (r: seq<Entry>)
    ensures SortedByTitle(r)
    ensures multiset(r) == multiset(s)
    decreases |s|
  {
    if |s| == 0 then []
    else
      assert s == [s[0]] + s[1..];
      InsertByTitle(s[0], SortByTitle(s[1..]))
  }

  /** Sorting an already sorted list leaves it as it is. */
  lemma {:induction false} SortByTitleSorted(s: seq<Entry>)
    requires SortedByTitle(s)
    ensures SortByTitle(s) == s
    decreases |s|
  {
    if |s| > 0 {
      SortByTitleSorted(s[1..]);
      assert s == [s[0]] + s[1..];
    }
  }

  /** The subfolders of `x` the user may read, in id order. */
  function ReadableSubfolders(t: Tree, x: Id, readable: Id -> bool): (r: seq<Entry>)
    requires WellFormed(t)
    ensures forall e :: e in r <==>
              IsFolder(t, e.id) && t.objs[e.id].parent == Some(x) && readable(e.id) && e.title == t.objs[e.id].title
  {
    Entries(t, Filter(Subfolders(t, x), readable))
  }

  function Filter(s: seq<Id>, p: Id -> bool): (r: seq<Id>)
    ensures forall y :: y in r <==> y in s && p(y)
  {
    if |s| == 0 then []
    else
      assert forall y :: y in s <==> y == s[0] || y in s[1..];
      (if p(s[0]) then [s[0]] else []) + Filter(s[1..], p)
  }

  function Entries(t: Tree, ids: seq<Id>): (r: seq<Entry>)
    requires forall y :: y in ids ==> y in t.objs
    ensures |r| == |ids|
    ensures forall i :: 0 <= i < |ids| ==> r[i] == Entry(ids[i], t.objs[ids[i]].title)
    ensures forall e :: e in r <==> e.id in ids && e.title == t.objs[e.id].title
  {
    var r := seq(|ids|, i requires 0 <= i < |ids| => Entry(ids[i], t.objs[ids[i]].title));
    assert forall e :: e in r ==> exists i :: 0 <= i < |ids| && r[i] == e;
    assert forall y :: y in ids ==> exists i :: 0 <= i < |ids| && ids[i] == y;
    r
  }

  /** The breadcrumb loop: walks `s` from its last element to its first (the chain is
      child-first, so this is root-first) and skips the root folder. */
  function Crumbs(t: Tree, s: seq<Id>): (r: seq<Entry>)
    requires forall y :: y in s ==> y in t.objs
    ensures |r| <= |s|
    decreases |s|
  {
    if |s| == 0 then []
    else
      var last := s[|s| - 1];
      assert forall y :: y in s[..|s| - 1] ==> y in s;
      (if IsRoot(t, last) then [] else [Entry(last, t.objs[last].title)]) + Crumbs(t, s[..|s| - 1])
  }

  /** Without a root among them, every object of `s` gives one crumb, in reverse order. */
  lemma {:induction false} CrumbsNonRoot(t: Tree, s: seq<Id>)
    requires forall y :: y in s ==> y in t.objs && !IsRoot(t, y)
    ensures |Crumbs(t, s)| == |s|
    ensures forall i :: 0 <= i < |s| ==> Crumbs(t, s)[i] == Entry(s[|s| - 1 - i], t.objs[s[|s| - 1 - i]].title)
    decreases |s|
  {
    if |s| > 0 {
      var p := s[..|s| - 1];
      assert forall y :: y in p ==> y in s;
      CrumbsNonRoot(t, p);
      var r := Crumbs(t, s);
      assert r == [Entry(s[|s| - 1], t.objs[s[|s| - 1]].title)] + Crumbs(t, p);
      forall i | 0 < i < |s| ensures r[i] == Entry(s[|s| - 1 - i], t.objs[s[|s| - 1 - i]].title) {
        assert r[i] == Crumbs(t, p)[i - 1];
        assert p[|p| - 1 - (i - 1)] == s[|s| - 1 - i];
      }
    }
  }

  /** Root-first crumbs below the root: with `c` the chain from `x` up to the root, crumb `i`
      is `c[|c| - 2 - i]`. */
  lemma CrumbsBelowRoot(t: Tree, x: Id)
    requires x in t.objs && Rooted(t, x, t.bound)
    ensures var c := Chain(t, x, t.bound);
            var bc := Crumbs(t, c);
            |bc| == |c| - 1 && forall i :: 0 <= i < |bc| ==> bc[i] == Entry(c[|c| - 2 - i], t.objs[c[|c| - 2 - i]].title)
  {
    var c := Chain(t, x, t.bound);
    forall j | 0 <= j < |c| - 1 ensures !IsRoot(t, c[j]) {
      NotLastNotRoot(t, x, j);
    }
    CrumbsOfRootedWalk(t, c);
  }

  /** A walk that meets the root only at its end gives one crumb per link but the last. */
  lemma CrumbsOfRootedWalk(t: Tree, c: seq<Id>)
    requires |c| >= 1 && forall i :: 0 <= i < |c| ==> c[i] in t.objs
    requires IsRoot(t, c[|c| - 1]) && forall j :: 0 <= j < |c| - 1 ==> !IsRoot(t, c[j])
    ensures var bc := Crumbs(t, c);
            |bc| == |c| - 1 && forall i :: 0 <= i < |bc| ==> bc[i] == Entry(c[|c| - 2 - i], t.objs[c[|c| - 2 - i]].title)
  {
    var below := c[..|c| - 1];
    forall y | y in below ensures y in t.objs && !IsRoot(t, y) {
      var j :| 0 <= j < |below| && below[j] == y;
    }
    CrumbsNonRoot(t, below);
    CrumbsDropRoot(t, c);
    var bc := Crumbs(t, below);
    forall i | 0 <= i < |bc| ensures bc[i] == Entry(c[|c| - 2 - i], t.objs[c[|c| - 2 - i]].title) {
      assert below[|below| - 1 - i] == c[|c| - 2 - i];
    }
  }

  /** A link of the chain before the last is not the root. */
  lemma NotLastNotRoot(t: Tree, x: Id, j: nat)
    requires x in t.objs && j < |Chain(t, x, t.bound)| - 1
    ensures !IsRoot(t, Chain(t, x, t.bound)[j])
  {
    var c := Chain(t, x, t.bound);
    if t.objs[c[j]].parent.None? {
      ChainRootLast(t, x, t.bound, j);
    }
  }

  /** The root at the end of a walk gives no crumb. */
  lemma CrumbsDropRoot(t: Tree, s: seq<Id>)
    requires |s| > 0 && (forall y :: y in s ==> y in t.objs) && IsRoot(t, s[|s| - 1])
    ensures Crumbs(t, s) == Crumbs(t, s[..|s| - 1])
  {
  }

  /** Below a non-root parent the chain has at least three links, and the parent is
      the crumb before last. */
  lemma ParentCrumb(t: Tree, x: Id)
    requires WellFormed(t) && x in t.objs
    requires t.objs[x].parent.Some? && !IsRoot(t, t.objs[x].parent.value)
    ensures var c := Chain(t, x, t.bound);
            |c| >= 3 && c[1] == t.objs[x].parent.value
  {
    var c := Chain(t, x, t.bound);
    assert |c| >= 2 && c[1] == t.objs[x].parent.value;
  }

  lemma SameMembers(a: seq<Entry>, b: seq<Entry>)
    requires multiset(a) == multiset(b)
    ensures forall e :: e in a <==> e in b
  {
    assert forall e :: e in a <==> e in multiset(a);
  }

  /** `folder_json`: the breadcrumbs (ancestors root-first, the root skipped), a ".." entry
      for the parent when the parent is not the root, then the readable subfolders sorted by
      title. The folder is selectable when the user may write in it and its parent is not
      the root. */
  function FolderJson(t: Tree, x: Id, running: bool, admin: bool, hasAccess: Id -> bool,
                      writable: bool, readable: Id -> bool): (r: Result<Listing, FolderError>)
    requires WellFormed(t)
    ensures r.Success? <==> IsFolder(t, x) && (!running || admin || hasAccess(x))
    ensures r.Success? ==>
              var c := Chain(t, x, t.bound);
              var bc := r.value.breadcrumbs;
              |bc| == |c| - 1
              && forall i :: 0 <= i < |bc| ==> bc[i] == Entry(c[|c| - 2 - i], t.objs[c[|c| - 2 - i]].title)
    ensures r.Success? ==>
              var up := t.objs[x].parent.Some? && !IsRoot(t, t.objs[x].parent.value);
              var fs := r.value.folders;
              var lead := if up then [Entry(t.objs[x].parent.value, "..")] else [];
              (r.value.selectable <==> writable && up)
              && |fs| >= |lead| && fs[..|lead|] == lead
              && SortedByTitle(fs[|lead|..])
              && multiset(fs[|lead|..]) == multiset(ReadableSubfolders(t, x, readable))
  {
    match DocViews.CheckReadAccess(IsFolder(t, x), running, admin, IsFolder(t, x) && hasAccess(x))
    case Failure(e) => Failure(View(e))
    case Success(_) =>
      var subs := SortByTitle(ReadableSubfolders(t, x, readable));
      var c := Chain(t, x, t.bound);
      CrumbsBelowRoot(t, x);
      var bc := Crumbs(t, c);
      var up := t.objs[x].parent.Some? && !IsRoot(t, t.objs[x].parent.value);
      if up then
        ParentCrumb(t, x);
        var lead := [bc[|bc| - 2].(title := "..")];
        assert lead == [Entry(t.objs[x].parent.value, "..")];
        var fs := lead + subs;
        assert fs[..1] == lead && fs[1..] == subs;
        Success(Listing(writable, bc, fs))
      else
        assert subs[..0] == [] && subs[0..] == subs;
        Success(Listing(false, bc, subs))
  }

  /** The folder list after the ".." entry holds exactly the readable subfolders, each
      under its own title. */
  lemma FolderJsonSubfolders(t: Tree, x: Id, running: bool, admin: bool, hasAccess: Id -> bool,
                             writable: bool, readable: Id -> bool)
    requires WellFormed(t)
    ensures var r := FolderJson(t, x, running, admin, hasAccess, writable, readable);
            r.Success? ==>
              var up := t.objs[x].parent.Some? && !IsRoot(t, t.objs[x].parent.value);
              var subs := r.value.folders[(if up then 1 else 0)..];
              forall e :: e in subs <==>
                IsFolder(t, e.id) && t.objs[e.id].parent == Some(x) && readable(e.id) && e.title == t.objs[e.id].title
  {
    var r := FolderJson(t, x, running, admin, hasAccess, writable, readable);
    if r.Success? {
      var up := t.objs[x].parent.Some? && !IsRoot(t, t.objs[x].parent.value);
      SameMembers(r.value.folders[(if up then 1 else 0)..], ReadableSubfolders(t, x, readable));
    }
  }
}
