/** The helpers shared by the document views (documents/views/util.py, in both snapshots):
    breadcrumbs, collision-free file names, document creation, form edits, the selection
    parser, the access decision tables and MIME pattern matching.

    The request form, flash messages and the security service are parameters. */
module DocViews {
  import opened Wrappers
  import opened Text
  import opened DocTree
  import Repository

  datatype ViewError = NotFound | Forbidden | ValueError | InternalServerError

  // ---------------------------------------------------------------------------
  // breadcrumbs_for
  // ---------------------------------------------------------------------------

  /** One breadcrumb: a label and, for ancestors, the folder the link points to. */
  datatype Crumb = Crumb(text: string, link: Option<Id>)

  /** `breadcrumbs_for(obj)`: nothing for no object; otherwise the ancestors from just below
      the root down to the parent, each linked, then the object itself, unlinked. With
      `c` the chain from the object up to the root, crumb `i` is `c[|bc| - 1 - i]`. */
  method BreadcrumbsFor(t: Tree, x: Option<Id>) returns (bc: seq<Crumb>)
    requires x.Some? ==> x.value in t.objs && Rooted(t, x.value, t.bound)
    ensures x.None? ==> bc == []
    ensures x.Some? ==>
              var c := Chain(t, x.value, t.bound);
              |bc| == (if |c| == 1 then 1 else |c| - 1)
              && bc[|bc| - 1] == Crumb(t.objs[x.value].title, None)
              && (forall i :: 0 <= i < |bc| - 1 ==>
                    bc[i] == Crumb(t.objs[c[|bc| - 1 - i]].title, Some(c[|bc| - 1 - i]))
                    && !IsRoot(t, c[|bc| - 1 - i]))
  {
    if x.None? {
      return [];
    }
    var id := x.value;
    ghost var c := Chain(t, id, t.bound);
    var self := Crumb(t.objs[id].title, None);
    bc := [self];
    var parent := t.objs[id].parent;
    var j := 1;
    while parent.Some? && !IsRoot(t, parent.value)
      invariant 1 <= j <= |c|
      invariant parent == t.objs[c[j - 1]].parent
      invariant j < |c| ==> parent == Some(c[j])
      invariant bc == AncestorCrumbs(t, c, j) + [self]
      invariant forall k :: 1 <= k < j ==> !IsRoot(t, c[k])
      decreases |c| - j
    {
      var p := parent.value;
      assert j < |c| && p == c[j];
      bc := [Crumb(t.objs[p].title, Some(p))] + bc;
      parent := t.objs[p].parent;
      j := j + 1;
    }
    if parent.Some? {
      ChainRootLast(t, id, t.bound, j);
    } else {
      ChainRootLast(t, id, t.bound, j - 1);
    }
    AncestorCrumbsAt(t, c, j);
  }

  /** The linked crumbs for the chain links `c[j - 1]` down to `c[1]`, root-side first. */
  function AncestorCrumbs(t: Tree, c: seq<Id>, j: nat): (r: seq<Crumb>)
    requires 1 <= j <= |c| && forall i :: 0 <= i < |c| ==> c[i] in t.objs
    decreases j
  {
    if j == 1 then [] else [Crumb(t.objs[c[j - 1]].title, Some(c[j - 1]))] + AncestorCrumbs(t, c, j - 1)
  }

  /** Crumb `i` of the ancestors is chain link `j - 1 - i`. */
  lemma {:induction false} AncestorCrumbsAt(t: Tree, c: seq<Id>, j: nat)
    requires 1 <= j <= |c| && forall i :: 0 <= i < |c| ==> c[i] in t.objs
    ensures var r := AncestorCrumbs(t, c, j);
            |r| == j - 1 && forall i :: 0 <= i < j - 1 ==> r[i] == Crumb(t.objs[c[j - 1 - i]].title, Some(c[j - 1 - i]))
    decreases j
  {
    if j > 1 {
      AncestorCrumbsAt(t, c, j - 1);
      var r := AncestorCrumbs(t, c, j);
      var q := AncestorCrumbs(t, c, j - 1);
      forall i | 1 <= i < j - 1 ensures r[i] == q[i - 1] {
      }
    }
  }

  // ---------------------------------------------------------------------------
  // get_new_filename
  // ---------------------------------------------------------------------------

  /** The names of the children of `f`, subfolders first. */
  function ChildNames(t: Tree, f: Id): (r: seq<string>)
    requires WellFormed(t)
    ensures forall y :: y in t.objs && t.objs[y].parent == Some(f) ==> t.objs[y].name in r
  {
    var cs := Children(t, f);
    var r := seq(|cs|, i requires 0 <= i < |cs| => t.objs[cs[i]].name);
    forall y | y in t.objs && t.objs[y].parent == Some(f) ensures t.objs[y].name in r {
      var k := IndexIn(cs, y);
      assert r[k] == t.objs[y].name;
    }
    r
  }

  function IndexIn(s: seq<Id>, y: Id): (i: nat)
    requires y in s
    ensures i < |s| && s[i] == y
  {
    if s[0] == y then 0 else 1 + IndexIn(s[1..], y)
  }

  /** The extension of a name: "." and what follows the last dot, or "" without a dot. */
  function Ext(name: string): (r: string)
    ensures r == "" || (r[0] == '.' && '.' !in r[1..])
  {
    match RSplit1(name, '.').1
    case None => ""
    case Some(e) => "." + e
  }

  /** The name without its extension. */
  function Stem(name: string): (r: string)
    ensures r + Ext(name) == name
  {
    RSplit1(name, '.').0
  }

  /** The regular expression `^\d+$`, whose `$` also matches before a final newline. */
  predicate SuffixDigits(v: string) {
    IsDigits(v) || (|v| >= 2 && v[|v| - 1] == '\n' && IsDigits(v[..|v| - 1]))
  }

  /** `int(v)` for text accepted by `SuffixDigits`. */
  function SuffixValue(v: string): nat
    requires SuffixDigits(v)
  {
    if IsDigits(v) then DigitsValue(v) else DigitsValue(v[..|v| - 1])
  }

  /** The numbered suffix an existing name contributes: it must start with `prefix`, end with
      `ext`, and have digits before its own last dot. */
  function Suffix(n: string, prefix: string, ext: string): Option<nat> {
    if prefix <= n && EndsWith(n, ext) then
      var v := RSplit1(n[|prefix|..], '.').0;
      if SuffixDigits(v) then Some(SuffixValue(v)) else None
    else None
  }

  /** `max(0, 0, *int_suffixes)` */
  function MaxSuffix(names: seq<string>, prefix: string, ext: string): (m: nat)
    ensures forall i :: 0 <= i < |names| && Suffix(names[i], prefix, ext).Some? ==> Suffix(names[i], prefix, ext).value <= m
  {
    if |names| == 0 then 0
    else
      var rest := MaxSuffix(names[1..], prefix, ext);
      assert forall i :: 1 <= i < |names| ==> names[i] == names[1..][i - 1];
      match Suffix(names[0], prefix, ext)
      case Some(k) => if k > rest then k else rest
      case None => rest
  }

  /** `get_new_filename`: a free name is kept; a taken one becomes "stem-n.ext" where n is one
      more than the largest numbered suffix already present. The result is never taken. */
  function GetNewFilename(names: seq<string>, name: string): (r: string)
    ensures name !in names ==> r == name
    ensures r !in names
    ensures name in names ==> Stem(name) + "-" <= r && EndsWith(r, Ext(name))
  {
    if name !in names then name
    else
      var stem := Stem(name);
      var ext := Ext(name);
      var k := MaxSuffix(names, stem + "-", ext) + 1;
      var r := stem + "-" + NatToString(k) + ext;
      NumberedNameFresh(names, stem, ext, k);
      assert r[..|stem + "-"|] == stem + "-";
      assert r[|r| - |ext|..] == ext;
      r
  }

  /** The numbered candidate reads back its own number as a suffix, so it cannot be taken by
      a name whose suffix is at most `k - 1`. */
  lemma NumberedNameFresh(names: seq<string>, stem: string, ext: string, k: nat)
    requires ext == "" || (ext[0] == '.' && '.' !in ext[1..])
    requires k == MaxSuffix(names, stem + "-", ext) + 1
    ensures stem + "-" + NatToString(k) + ext !in names
  {
    SuffixOfNumbered(stem + "-", k, ext);
  }

  /** "prefix<k>.ext" contributes the suffix `k`. */
  lemma SuffixOfNumbered(prefix: string, k: nat, ext: string)
    requires ext == "" || (ext[0] == '.' && '.' !in ext[1..])
    ensures Suffix(prefix + NatToString(k) + ext, prefix, ext) == Some(k)
  {
    var ds := NatToString(k);
    var r := prefix + ds + ext;
    assert r[|prefix|..] == ds + ext;
    DigitsExclude(ds, '.');
    if ext == "" {
      assert ds + ext == ds;
    } else {
      assert ds + ext == ds + ['.'] + ext[1..];
      RSplit1Append(ds, '.', ext[1..]);
    }
    ParseNatToString(k);
    assert r[..|prefix|] == prefix && r[|r| - |ext|..] == ext;
  }

  // ---------------------------------------------------------------------------
  // create_document
  // ---------------------------------------------------------------------------

  /** The renamed file name is free among the titles of the folder's children. */
  lemma NewFilenameNotTaken(t: Tree, f: Id, name: string)
    requires WellFormed(t)
    ensures !Repository.TitleTaken(t, f, GetNewFilename(ChildNames(t, f), name))
  {
  }

  /** A created document: the new tree, its id, and whether the name had to change (the
      "already present, renamed" message). */
  datatype Created = Created(tree: Tree, id: Id, renamed: bool)

  /** `create_document` (current snapshot): the write check comes first, an empty file name
      raises ValueError, and the document is stored under a collision-free title. `denied`
      is the error `check_write_access` raised, if any. Storing the bytes is
      `DocContent.SetContent`. */
  function CreateDocument(t: Tree, f: Id, filename: string, denied: Option<ViewError>): (r: Result<Created, ViewError>)
    requires WellFormed(t) && IsFolder(t, f)
    ensures denied.Some? ==> r == Failure(denied.value)
    ensures denied.None? ==> (r.Failure? <==> filename == "") && (r.Failure? ==> r.error == ValueError)
    ensures r.Success? ==>
              var name := GetNewFilename(ChildNames(t, f), filename);
              r.value.id !in t.objs
              && r.value.tree.objs == t.objs[r.value.id := Obj(Document, name, name, "", Some(f))]
              && (r.value.renamed <==> filename in ChildNames(t, f))
              && WellFormed(r.value.tree)
  {
    if denied.Some? then Failure(denied.value)
    else if filename == "" then Failure(ValueError)
    else
      var name := GetNewFilename(ChildNames(t, f), filename);
      NewFilenameNotTaken(t, f, filename);
      Repository.CreateChildWellFormed(t, f, Document, name);
      var c := Repository.CreateChild(t, f, Document, name).value;
      Success(Created(c.0, c.1, name != filename))
  }

  /** `create_document` (older snapshot): an empty file name flashes an error and returns
      None instead of raising. */
  function CreateDocumentOld(t: Tree, f: Id, filename: string, denied: Option<ViewError>): (r: Result<Option<Created>, ViewError>)
    requires WellFormed(t) && IsFolder(t, f)
    ensures denied.None? && filename == "" ==> r == Success(None)
    ensures denied.Some? ==> r == Failure(denied.value)
    ensures filename != "" ==>
              (r.Success? <==> CreateDocument(t, f, filename, denied).Success?)
              && (r.Success? ==> r.value == Some(CreateDocument(t, f, filename, denied).value))
  {
    if denied.Some? then Failure(denied.value)
    else if filename == "" then Success(None)
    else
      Success(Some(CreateDocument(t, f, filename, denied).value))
  }

  /** The snapshots differ only on an empty file name: ValueError against None. */
  lemma CreateDocumentVariants(t: Tree, f: Id, filename: string, denied: Option<ViewError>)
    requires WellFormed(t) && IsFolder(t, f)
    ensures filename != "" || denied.Some? ==>
              (CreateDocument(t, f, filename, denied).Success? <==> CreateDocumentOld(t, f, filename, denied).Success?)
    ensures filename == "" && denied.None? ==>
              CreateDocument(t, f, filename, denied) == Failure(ValueError)
              && CreateDocumentOld(t, f, filename, denied) == Success(None)
  {
  }

  // ---------------------------------------------------------------------------
  // edit_object
  // ---------------------------------------------------------------------------

  /** `edit_object`: title and description take the form's values (missing fields read as
      ""); the result says whether either differed. Setting the title also sets the name. */
  function EditObject(o: Obj, title: Option<string>, description: Option<string>): (r: (bool, Obj))
    ensures r.1.title == title.GetOr("") && r.1.description == description.GetOr("")
    ensures r.0 <==> o.title != title.GetOr("") || o.description != description.GetOr("")
    ensures !r.0 ==> r.1 == o
    ensures r.1.kind == o.kind && r.1.parent == o.parent
    ensures o.title != title.GetOr("") ==> r.1.name == title.GetOr("")
  {
    var t := title.GetOr("");
    var d := description.GetOr("");
    var o1 := if t != o.title then SetTitle(o, t) else o;
    var o2 := if d != o1.description then o1.(description := d) else o1;
    (t != o.title || d != o.description, o2)
  }

  /** Submitting the same form twice reports no change the second time. */
  lemma EditObjectIdempotent(o: Obj, title: Option<string>, description: Option<string>)
    ensures var once := EditObject(o, title, description).1;
            EditObject(once, title, description) == (false, once)
  {
  }

  // ---------------------------------------------------------------------------
  // get_selected_objects
  // ---------------------------------------------------------------------------

  /** `x.split(sep)[-1]` */
  function LastField(x: string, sep: char): (r: string)
    ensures sep !in r
  {
    match RSplit1(x, sep).1
    case Some(tail) => tail
    case None => x
  }

  /** `int(x.split(":")[-1])`, None when `int` raises. */
  function SelectionId(x: string): Option<int> {
    PyInt(LastField(x, ':'))
  }

  /** A selection of this kind whose id is not an integer. */
  predicate BadSelection(x: string, prefix: string) {
    prefix <= x && SelectionId(x).None?
  }

  /** One selection: its id when it starts with `prefix`, nothing when it does not, and
      ValueError when it does but the id is not an integer. */
  function Pick(x: string, prefix: string): (r: Result<Option<int>, ViewError>)
    ensures r.Failure? <==> BadSelection(x, prefix)
    ensures r.Failure? ==> r.error == ValueError
    ensures r == Success(None) <==> !(prefix <= x)
    ensures r.Success? && r.value.Some? ==> r.value == SelectionId(x)
  {
    if prefix <= x then
      match SelectionId(x)
      case Some(n) => Success(Some(n))
      case None => Failure(ValueError)
    else Success(None)
  }

  /** The ids of the selections starting with `prefix`, in order; ValueError as soon as one
      of them is not an integer. */
  function SelectedIds(sel: seq<string>, prefix: string): (r: Result<seq<int>, ViewError>)
    ensures r.Failure? ==> r.error == ValueError
    ensures r.Success? ==> |r.value| <= |sel|
  {
    if |sel| == 0 then Success([])
    else
      var head :- Pick(sel[0], prefix);
      var rest :- SelectedIds(sel[1..], prefix);
      assert forall i :: 1 <= i < |sel| ==> sel[i] == sel[1..][i - 1];
      Success((if head.Some? then [head.value] else []) + rest)
  }

  /** The parse fails exactly when some selection of the kind has a non-integer id. */
  lemma {:induction false} SelectedIdsFails(sel: seq<string>, prefix: string)
    ensures SelectedIds(sel, prefix).Failure? <==> exists i :: 0 <= i < |sel| && BadSelection(sel[i], prefix)
  {
    if |sel| > 0 {
      SelectedIdsFails(sel[1..], prefix);
      assert forall i :: 1 <= i < |sel| ==> sel[i] == sel[1..][i - 1];
      if BadSelection(sel[0], prefix) {
        assert Pick(sel[0], prefix).Failure?;
      }
    }
  }

  /** `check_read_access`: no object is NotFound; without the security service, for an
      admin, or with `has_access` it passes; otherwise Forbidden. */
  function CheckReadAccess(present: bool, running: bool, admin: bool, hasAccess: bool): (r: Result<(), ViewError>)
    ensures !present <==> r == Failure(NotFound)
    ensures r.Success? <==> present && (!running || admin || hasAccess)
    ensures r.Failure? ==> r.error in {NotFound, Forbidden}
  {
    if !present then Failure(NotFound)
    else if !running || admin || hasAccess then Success(())
    else Failure(Forbidden)
  }

  /** `check_write_access` and `check_manage_access`: as the read check, but `has_access`
      must come with the WRITE (resp. MANAGE) permission. */
  function CheckPermissionAccess(present: bool, running: bool, admin: bool, hasAccess: bool, permitted: bool): (r: Result<(), ViewError>)
    ensures !present <==> r == Failure(NotFound)
    ensures r.Success? <==> present && (!running || admin || (hasAccess && permitted))
    ensures r.Failure? ==> r.error in {NotFound, Forbidden}
  {
    if !present then Failure(NotFound)
    else if !running || admin then Success(())
    else if hasAccess && permitted then Success(())
    else Failure(Forbidden)
  }

  /** Whoever may write or manage may read; a permission alone, without `has_access`, is not
      enough. */
  lemma WriteImpliesRead(present: bool, running: bool, admin: bool, hasAccess: bool, permitted: bool)
    ensures CheckPermissionAccess(present, running, admin, hasAccess, permitted).Success? ==>
              CheckReadAccess(present, running, admin, hasAccess).Success?
    ensures present && running && !admin && !hasAccess ==>
              CheckPermissionAccess(present, running, admin, hasAccess, permitted) == Failure(Forbidden)
  {
  }

  /** `get_document` / `get_folder` over a list of ids: each must be an object of kind `k`
      (NotFound otherwise) that passes the read check. */
  function Fetch(t: Tree, ids: seq<int>, k: Kind, running: bool, admin: bool, hasAccess: Id -> bool): (r: Result<seq<Id>, ViewError>)
    ensures r.Success? <==> forall i :: 0 <= i < |ids| ==>
              ids[i] >= 0 && Repository.OfKind(t, ids[i] as nat, k) && (!running || admin || hasAccess(ids[i] as nat))
    ensures r.Success? ==> |r.value| == |ids| && forall i :: 0 <= i < |ids| ==> r.value[i] as int == ids[i]
    ensures r.Success? ==> forall i :: 0 <= i < |r.value| ==> Repository.OfKind(t, r.value[i], k)
  {
    if |ids| == 0 then Success([])
    else
      var ok := ids[0] >= 0 && Repository.OfKind(t, ids[0] as nat, k);
      var first :- CheckReadAccess(ok, running, admin, ok && hasAccess(ids[0] as nat));
      var rest :- Fetch(t, ids[1..], k, running, admin, hasAccess);
      var r := [ids[0] as nat] + rest;
      assert forall i :: 1 <= i < |ids| ==> ids[i] == ids[1..][i - 1] && r[i] == rest[i - 1];
      Success(r)
  }

  /** `get_selected_objects`: the selected folders and documents, in selection order. Every
      one of them must be a direct child of `f`, or the request fails with
      InternalServerError. */
  function GetSelectedObjects(t: Tree, f: Id, sel: seq<string>, running: bool, admin: bool, hasAccess: Id -> bool)
    : (r: Result<(seq<Id>, seq<Id>), ViewError>)
    ensures r.Success? ==>
              (forall i :: 0 <= i < |r.value.0| ==> IsFolder(t, r.value.0[i]) && t.objs[r.value.0[i]].parent == Some(f))
              && (forall i :: 0 <= i < |r.value.1| ==> IsDocument(t, r.value.1[i]) && t.objs[r.value.1[i]].parent == Some(f))
    ensures r.Success? ==> SelectedIds(sel, "cmis:folder").Success? && SelectedIds(sel, "cmis:document").Success?
    ensures r.Success? ==> |r.value.0| == |SelectedIds(sel, "cmis:folder").value|
                           && |r.value.1| == |SelectedIds(sel, "cmis:document").value|
  {
    var docIds :- SelectedIds(sel, "cmis:document");
    var folderIds :- SelectedIds(sel, "cmis:folder");
    var docs :- Fetch(t, docIds, Document, running, admin, hasAccess);
    var folders :- Fetch(t, folderIds, Folder, running, admin, hasAccess);
    if ChildrenOf(t, docs, f) && ChildrenOf(t, folders, f) then Success((folders, docs))
    else Failure(InternalServerError)
  }

  /** Every listed object has `f` as its parent. */
  predicate ChildrenOf(t: Tree, ids: seq<Id>, f: Id) {
    forall i :: 0 <= i < |ids| ==> ids[i] in t.objs && t.objs[ids[i]].parent == Some(f)
  }

  /** The selection values the folder listing emits: "cmis:document:<id>" or
      "cmis:folder:<id>". */
  function Selections(prefix: string, ids: seq<Id>): (r: seq<string>)
    ensures |r| == |ids|
    ensures forall i :: 0 <= i < |ids| ==> r[i] == prefix + ":" + NatToString(ids[i])
  {
    if |ids| == 0 then [] else [prefix + ":" + NatToString(ids[0])] + Selections(prefix, ids[1..])
  }

  lemma LastFieldFormatted(prefix: string, ds: string)
    requires IsDigits(ds)
    ensures LastField(prefix + ":" + ds, ':') == ds
  {
    DigitsExclude(ds, ':');
    RSplit1Append(prefix, ':', ds);
    assert prefix + ":" + ds == prefix + [':'] + ds;
  }

  /** A formatted selection of the requested kind yields its id. */
  lemma PickFormatted(prefix: string, n: nat)
    ensures Pick(prefix + ":" + NatToString(n), prefix) == Success(Some(n as int))
  {
    var ds := NatToString(n);
    PickDigits(prefix, ds);
    ParseNatToString(n);
  }

  /** A selection of the requested kind whose id is digits yields their value. */
  lemma PickDigits(prefix: string, ds: string)
    requires IsDigits(ds)
    ensures Pick(prefix + ":" + ds, prefix) == Success(Some(DigitsValue(ds) as int))
  {
    var s := prefix + ":" + ds;
    assert s[..|prefix|] == prefix;
    LastFieldFormatted(prefix, ds);
    PyIntDigits(ds);
    assert SelectionId(s) == Some(DigitsValue(ds) as int);
  }

  /** A formatted selection of another kind is skipped, when the kinds differ at index `k`. */
  lemma PickOther(prefix: string, other: string, k: nat, n: nat)
    requires k < |prefix| && k < |other| && prefix[k] != other[k]
    ensures Pick(other + ":" + NatToString(n), prefix) == Success(None)
  {
    var o := other + ":" + NatToString(n);
    assert o[k] == other[k];
  }

  /** One step of `SelectedIds`: the head's outcome joined with the tail's. */
  function Combine(h: Result<Option<int>, ViewError>, t: Result<seq<int>, ViewError>): Result<seq<int>, ViewError> {
    if h.Failure? then Failure(h.error)
    else if t.Failure? then Failure(t.error)
    else Success((if h.value.Some? then [h.value.value] else []) + t.value)
  }

  lemma SelectedIdsCons(x: string, tail: seq<string>, prefix: string)
    ensures SelectedIds([x] + tail, prefix) == Combine(Pick(x, prefix), SelectedIds(tail, prefix))
  {
    assert ([x] + tail)[0] == x;
    assert ([x] + tail)[1..] == tail;
  }

  lemma ConsAppend(a: seq<int>, v: seq<int>)
    requires |a| > 0
    ensures a + v == [a[0]] + (a[1..] + v)
  {
    assert a == [a[0]] + a[1..];
  }

  /** Parsing the listing's own selection values gives back the ids, in order, ahead of
      whatever the rest of the selection yields. */
  lemma {:induction false} SelectionsRoundTrip(prefix: string, ids: seq<Id>, rest: seq<string>)
    requires SelectedIds(rest, prefix).Success?
    ensures SelectedIds(Selections(prefix, ids) + rest, prefix) == Success(ids + SelectedIds(rest, prefix).value)
  {
    if |ids| == 0 {
      assert Selections(prefix, ids) + rest == rest;
      assert ids + SelectedIds(rest, prefix).value == SelectedIds(rest, prefix).value;
    } else {
      var x := prefix + ":" + NatToString(ids[0]);
      var tail := Selections(prefix, ids[1..]) + rest;
      assert Selections(prefix, ids) + rest == [x] + tail;
      SelectionsRoundTrip(prefix, ids[1..], rest);
      PickFormatted(prefix, ids[0]);
      SelectedIdsCons(x, tail, prefix);
      ConsAppend(ids, SelectedIds(rest, prefix).value);
    }
  }

  /** Selections of another kind contribute nothing. */
  lemma {:induction false} SelectionsOtherKind(prefix: string, other: string, k: nat, ids: seq<Id>, rest: seq<string>)
    requires k < |prefix| && k < |other| && prefix[k] != other[k]
    ensures SelectedIds(Selections(other, ids) + rest, prefix) == SelectedIds(rest, prefix)
  {
    if |ids| == 0 {
      assert Selections(other, ids) + rest == rest;
    } else {
      var x := other + ":" + NatToString(ids[0]);
      var tail := Selections(other, ids[1..]) + rest;
      assert Selections(other, ids) + rest == [x] + tail;
      SelectionsOtherKind(prefix, other, k, ids[1..], rest);
      PickOther(prefix, other, k, ids[0]);
      SelectedIdsCons(x, tail, prefix);
      if SelectedIds(rest, prefix).Success? {
        assert [] + SelectedIds(rest, prefix).value == SelectedIds(rest, prefix).value;
      }
    }
  }

  lemma {:induction false} FetchIds(t: Tree, ids: seq<Id>, k: Kind, running: bool, admin: bool, hasAccess: Id -> bool)
    requires forall i :: 0 <= i < |ids| ==> Repository.OfKind(t, ids[i], k) && hasAccess(ids[i])
    ensures Fetch(t, ids, k, running, admin, hasAccess) == Success(ids)
  {
    if |ids| > 0 {
      FetchIds(t, ids[1..], k, running, admin, hasAccess);
      assert ids == [ids[0]] + ids[1..];
    }
  }

  /** The folder and document ids read back from a listing-made selection. */
  lemma SelectionsIds(folders: seq<Id>, docs: seq<Id>)
    ensures SelectedIds(Selections("cmis:folder", folders) + Selections("cmis:document", docs), "cmis:folder") == Success(folders)
    ensures SelectedIds(Selections("cmis:folder", folders) + Selections("cmis:document", docs), "cmis:document") == Success(docs)
  {
    var a := Selections("cmis:folder", folders);
    var b := Selections("cmis:document", docs);
    assert "cmis:folder"[5] != "cmis:document"[5];
    SelectionsOtherKind("cmis:folder", "cmis:document", 5, docs, []);
    assert b + [] == b;
    SelectionsRoundTrip("cmis:folder", folders, b);
    assert folders + [] == folders;
    SelectionsOtherKind("cmis:document", "cmis:folder", 5, folders, b);
    SelectionsRoundTrip("cmis:document", docs, []);
    assert docs + [] == docs;
  }

  /** A selection of readable child folders and documents, as the listing emits it, is
      returned unchanged. */
  lemma SelectedObjectsRoundTrip(t: Tree, f: Id, folders: seq<Id>, docs: seq<Id>, running: bool, admin: bool, hasAccess: Id -> bool)
    requires forall i :: 0 <= i < |folders| ==> IsFolder(t, folders[i]) && t.objs[folders[i]].parent == Some(f) && hasAccess(folders[i])
    requires forall i :: 0 <= i < |docs| ==> IsDocument(t, docs[i]) && t.objs[docs[i]].parent == Some(f) && hasAccess(docs[i])
    ensures GetSelectedObjects(t, f, Selections("cmis:folder", folders) + Selections("cmis:document", docs), running, admin, hasAccess)
            == Success((folders, docs))
  {
    SelectionsIds(folders, docs);
    FetchIds(t, docs, Document, running, admin, hasAccess);
    FetchIds(t, folders, Folder, running, admin, hasAccess);
    assert ChildrenOf(t, docs, f) && ChildrenOf(t, folders, f);
  }

  // ---------------------------------------------------------------------------
  // match
  // ---------------------------------------------------------------------------

  /** `re.match(pat, s)` for a pattern whose only special character is "*", standing for
      `\w*`: the pattern matches some prefix of `s`. */
  predicate PrefixMatch(p: string, s: string)
    decreases |p|, |s|
  {
    if |p| == 0 then true
    else if p[0] == '*' then PrefixMatch(p[1..], s) || (|s| > 0 && IsWordChar(s[0]) && PrefixMatch(p, s[1..]))
    else |s| > 0 && s[0] == p[0] && PrefixMatch(p[1..], s[1..])
  }

  /** `match(mime_type, patterns)`: an empty type counts as "application/binary". */
  predicate MimeMatch(mime: string, patterns: seq<string>) {
    var m := if mime == "" then "application/binary" else mime;
    exists i :: 0 <= i < |patterns| && PrefixMatch(patterns[i], m)
  }

  /** A pattern without "*" matches exactly the strings it starts. */
  lemma {:induction false} LiteralMatch(p: string, s: string)
    requires '*' !in p
    ensures PrefixMatch(p, s) <==> p <= s
  {
    if |p| > 0 && |s| > 0 && s[0] == p[0] {
      LiteralMatch(p[1..], s[1..]);
      assert p <= s <==> p[1..] <= s[1..];
    }
  }

  /** A trailing "*" may match nothing, so the pattern "image/" followed by a star matches whatever starts with "image/". */
  lemma {:induction false} TrailingStarMatch(p: string, s: string)
    requires '*' !in p
    ensures PrefixMatch(p + "*", s) <==> p <= s
  {
    if |p| == 0 {
      assert PrefixMatch("*"[1..], s);
    } else {
      assert (p + "*")[1..] == p[1..] + "*";
      if |s| > 0 && s[0] == p[0] {
        TrailingStarMatch(p[1..], s[1..]);
        assert p <= s <==> p[1..] <= s[1..];
      }
    }
  }

  /** An empty MIME type is matched as "application/binary". */
  lemma EmptyMimeIsBinary(patterns: seq<string>)
    ensures MimeMatch("", patterns) == MimeMatch("application/binary", patterns)
  {
  }
}
