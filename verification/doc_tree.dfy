/** The folder/document tree of the document repository (documents/models.py).

    The persistent rows are an id-indexed map of objects; each object points to its parent
    folder. `bound` is a modelling device, not a column: an upper bound on the length of every
    parent chain, which lets the recursive walks up and down the tree terminate. */
module DocTree {
  import opened Wrappers
  import opened Text

  type Id = nat

  /** The two concrete CMIS object classes, distinguished by `sbe_type`. */
  datatype Kind = Folder | Document

  function SbeType(k: Kind): (r: string)
    ensures r == "cmis:folder" <==> k == Folder
    ensures r == "cmis:document" <==> k == Document
  {
    match k
    case Folder => "cmis:folder"
    case Document => "cmis:document"
  }

  /** A `CmisObject` row: `title` and `name` are kept in sync by the ORM listeners. */
  datatype Obj = Obj(kind: Kind, title: string, name: string, description: string, parent: Option<Id>)

  datatype Tree = Tree(objs: map<Id, Obj>, next: Id, bound: nat)

  // ---------------------------------------------------------------------------
  // Object construction and the title/name synchronisation
  // ---------------------------------------------------------------------------

  /** `CmisObject(title=..., name=..., parent=...)`: a given title prevails over the name;
      a missing or None title falls back to the name. Without either there is no object
      (both columns are mandatory). */
  function NewObj(kind: Kind, title: Option<string>, name: Option<string>, parent: Option<Id>): (r: Option<Obj>)
    ensures r.Some? <==> title.Some? || name.Some?
    ensures r.Some? ==> r.value.title == r.value.name && r.value.kind == kind && r.value.parent == parent
    ensures r.Some? && title.Some? ==> r.value.title == title.value
    ensures r.Some? && title.None? ==> r.value.title == name.value
  {
    if title.Some? then Some(Obj(kind, title.value, title.value, "", parent))
    else if name.Some? then Some(Obj(kind, name.value, name.value, "", parent))
    else None
  }

  /** The `title` setter: it also sets `name`. */
  function SetTitle(o: Obj, title: string): (r: Obj)
    ensures r.title == title && r.name == title
    ensures r.kind == o.kind && r.parent == o.parent && r.description == o.description
  {
    o.(title := title, name := title)
  }

  /** Assigning `name`: the listener copies it into `title`. */
  function SetName(o: Obj, name: string): (r: Obj)
    ensures r.title == name && r.name == name
    ensures r.kind == o.kind && r.parent == o.parent && r.description == o.description
  {
    o.(title := name, name := name)
  }

  /** Setting the title and then the same name, or the reverse, gives the same object. */
  lemma SetTitleNameCommute(o: Obj, s: string)
    ensures SetName(SetTitle(o, s), s) == SetTitle(o, s) == SetTitle(SetName(o, s), s)
  {
  }

  predicate IsFolder(t: Tree, id: Id) {
    id in t.objs && t.objs[id].kind == Folder
  }

  predicate IsDocument(t: Tree, id: Id) {
    id in t.objs && t.objs[id].kind == Document
  }

  /** `is_root_folder`: the object has no parent. */
  predicate IsRoot(t: Tree, id: Id)
    requires id in t.objs
  {
    t.objs[id].parent.None?
  }

  // ---------------------------------------------------------------------------
  // Well-formedness
  // ---------------------------------------------------------------------------

  /** The parent chain starting at `id` reaches a parentless object within `fuel` steps. */
  predicate Rooted(t: Tree, id: Id, fuel: nat)
    decreases fuel
  {
    id in t.objs &&
    match t.objs[id].parent
    case None => true
    case Some(p) => fuel > 0 && Rooted(t, p, fuel - 1)
  }

  lemma {:induction false} RootedMono(t: Tree, id: Id, n: nat, m: nat)
    requires Rooted(t, id, n) && n <= m
    ensures Rooted(t, id, m)
    decreases n
  {
    match t.objs[id].parent
    case None =>
    case Some(p) => RootedMono(t, p, n - 1, m - 1);
  }

  /** Sibling titles are unique (the `(parent, title)` unique constraint). */
  predicate UniqueTitles(t: Tree) {
    forall a, b :: a in t.objs && b in t.objs && a != b
      && t.objs[a].parent.Some? && t.objs[a].parent == t.objs[b].parent
      ==> t.objs[a].title != t.objs[b].title
  }

  /** The invariants the database and the ORM maintain: ids below `next`, every chain reaches
      a root, parents are folders, titles equal names, sibling titles are unique. */
  predicate WellFormed(t: Tree) {
    (forall id :: id in t.objs ==> id < t.next)
    && (forall id :: id in t.objs ==> Rooted(t, id, t.bound))
    && (forall id :: id in t.objs && t.objs[id].parent.Some? ==> IsFolder(t, t.objs[id].parent.value))
    && (forall id :: id in t.objs ==> t.objs[id].title == t.objs[id].name)
    && UniqueTitles(t)
  }

  // ---------------------------------------------------------------------------
  // Walking up: _iter_to_root, _indexable_parent_ids, depth, path
  // ---------------------------------------------------------------------------

  /** The object and then its ancestors, nearest first, following parent links. */
  function Chain(t: Tree, id: Id, fuel: nat): (c: seq<Id>)
    ensures id in t.objs ==> |c| >= 1 && c[0] == id
    ensures id !in t.objs ==> c == []
    ensures forall i :: 0 <= i < |c| ==> c[i] in t.objs
    ensures forall i :: 0 <= i < |c| - 1 ==> t.objs[c[i]].parent == Some(c[i + 1])
    ensures Rooted(t, id, fuel) ==> t.objs[c[|c| - 1]].parent.None?
    decreases fuel
  {
    if id !in t.objs then []
    else match t.objs[id].parent
      case None => [id]
      case Some(p) =>
        if fuel == 0 then [id]
        else
          var c := Chain(t, p, fuel - 1);
          assert Rooted(t, id, fuel) ==> Rooted(t, p, fuel - 1);
          assert Rooted(t, id, fuel) ==> |c| >= 1 && ([id] + c)[|c|] == c[|c| - 1];
          [id] + c
  }

  /** Extra fuel does not change a chain that already reaches the root. */
  lemma {:induction false} ChainFuel(t: Tree, id: Id, n: nat, m: nat)
    requires Rooted(t, id, n) && n <= m
    ensures Chain(t, id, n) == Chain(t, id, m)
    decreases n
  {
    match t.objs[id].parent
    case None =>
    case Some(p) => ChainFuel(t, p, n - 1, m - 1);
  }

  /** Only the last element of a chain can be parentless. */
  lemma {:induction false} ChainRootLast(t: Tree, id: Id, fuel: nat, k: nat)
    requires k < |Chain(t, id, fuel)| && t.objs[Chain(t, id, fuel)[k]].parent.None?
    ensures k == |Chain(t, id, fuel)| - 1
    decreases fuel
  {
    var c := Chain(t, id, fuel);
    match t.objs[id].parent
    case None =>
    case Some(p) =>
      if fuel > 0 {
        assert k != 0;
        assert c[k] == Chain(t, p, fuel - 1)[k - 1];
        ChainRootLast(t, p, fuel - 1, k - 1);
      }
  }

  /** `_iter_to_root(skip_self)`: self (unless skipped), then every ancestor up to the root. */
  function IterToRoot(t: Tree, id: Id, skipSelf: bool): (r: seq<Id>)
    requires id in t.objs
    ensures !skipSelf ==> r == Chain(t, id, t.bound)
    ensures skipSelf && IsRoot(t, id) ==> r == []
  {
    if !skipSelf then Chain(t, id, t.bound)
    else match t.objs[id].parent
      case None => []
      case Some(p) => Chain(t, p, t.bound)
  }

  /** In a well-formed tree, skipping self drops exactly the first element. */
  lemma IterToRootSkip(t: Tree, id: Id)
    requires WellFormed(t) && id in t.objs
    ensures IterToRoot(t, id, true) == IterToRoot(t, id, false)[1..]
  {
    match t.objs[id].parent
    case None =>
    case Some(p) =>
      assert Rooted(t, p, t.bound - 1);
      ChainFuel(t, p, t.bound - 1, t.bound);
  }

  function Reverse<T>(s: seq<T>): (r: seq<T>)
    ensures |r| == |s|
    ensures forall i :: 0 <= i < |s| ==> r[i] == s[|s| - 1 - i]
  {
    if |s| == 0 then [] else Reverse(s[1..]) + [s[0]]
  }

  function IdStrings(ids: seq<Id>): (r: seq<string>)
    ensures |r| == |ids|
    ensures forall i :: 0 <= i < |ids| ==> r[i] == NatToString(ids[i])
  {
    if |ids| == 0 then [] else [NatToString(ids[0])] + IdStrings(ids[1..])
  }

  /** `_indexable_parent_ids`: "/" followed by the ancestor ids, root first, joined by "/". */
  function IndexableParentIds(t: Tree, id: Id): (r: string)
    requires id in t.objs
    ensures |r| >= 1 && r[0] == '/'
  {
    "/" + Join(IdStrings(Reverse(IterToRoot(t, id, true))), '/')
  }

  function ParseIds(parts: seq<string>): Option<seq<Id>> {
    if |parts| == 0 then Some([])
    else match (ParseNat(parts[0]), ParseIds(parts[1..]))
      case (Some(n), Some(rest)) => Some([n] + rest)
      case _ => None
  }

  /** Reading the indexed string back gives the ancestor ids, root first: the index field
      determines the ancestry of a non-root object. */
  lemma IndexableParentIdsRoundTrip(t: Tree, id: Id)
    requires WellFormed(t) && id in t.objs && !IsRoot(t, id)
    ensures ParseIds(Split(IndexableParentIds(t, id)[1..], '/')) == Some(Reverse(IterToRoot(t, id, true)))
  {
    var ids := Reverse(IterToRoot(t, id, true));
    var parts := IdStrings(ids);
    forall i | 0 <= i < |parts| ensures '/' !in parts[i] {
      DigitsExclude(parts[i], '/');
    }
    SplitJoin(parts, '/');
    ParseIdsStrings(ids);
  }

  lemma {:induction false} ParseIdsStrings(ids: seq<Id>)
    ensures ParseIds(IdStrings(ids)) == Some(ids)
  {
    if |ids| > 0 {
      ParseNatToString(ids[0]);
      ParseIdsStrings(ids[1..]);
      assert IdStrings(ids)[1..] == IdStrings(ids[1..]);
      assert ids == [ids[0]] + ids[1..];
    }
  }

  /** `depth`: 0 for a root, the parent's depth plus one otherwise. */
  function Depth(t: Tree, id: Id, fuel: nat): nat
    decreases fuel
  {
    if id !in t.objs then 0
    else match t.objs[id].parent
      case None => 0
      case Some(p) => if fuel == 0 then 1 else Depth(t, p, fuel - 1) + 1
  }

  /** The depth is the number of ancestors `_iter_to_root(skip_self=True)` yields. */
  lemma {:induction false} DepthIsAncestorCount(t: Tree, id: Id, fuel: nat)
    requires Rooted(t, id, fuel)
    ensures Depth(t, id, fuel) == |Chain(t, id, fuel)| - 1
    decreases fuel
  {
    match t.objs[id].parent
    case None =>
    case Some(p) => DepthIsAncestorCount(t, p, fuel - 1);
  }

  /** `path`: "" for a root, else the parent's path, "/" and the title. */
  function Path(t: Tree, id: Id, fuel: nat): string
    decreases fuel
  {
    if id !in t.objs then ""
    else match t.objs[id].parent
      case None => ""
      case Some(p) => (if fuel == 0 then "" else Path(t, p, fuel - 1)) + "/" + t.objs[id].title
  }

  /** "/" + title for each object of a chain but the last, farthest first. */
  function Segments(t: Tree, c: seq<Id>): string
    requires forall i :: 0 <= i < |c| ==> c[i] in t.objs
  {
    if |c| <= 1 then "" else Segments(t, c[1..]) + "/" + t.objs[c[0]].title
  }

  /** The path spells out the titles along the chain from just below the root down to the
      object, each preceded by "/". */
  lemma {:induction false} PathIsSegments(t: Tree, id: Id, fuel: nat)
    requires Rooted(t, id, fuel)
    ensures Path(t, id, fuel) == Segments(t, Chain(t, id, fuel))
    decreases fuel
  {
    match t.objs[id].parent
    case None =>
    case Some(p) =>
      PathIsSegments(t, p, fuel - 1);
      assert Chain(t, id, fuel)[1..] == Chain(t, p, fuel - 1);
  }

  // ---------------------------------------------------------------------------
  // Walking down: children, document_count, get_object_by_path
  // ---------------------------------------------------------------------------

  /** Ids `>= i` of the objects of kind `k` whose parent is `f`, in increasing order. */
  function ScanChildren(t: Tree, f: Id, k: Kind, i: nat): (r: seq<Id>)
    ensures forall x :: x in r <==> x >= i && x < t.next && x in t.objs && t.objs[x].parent == Some(f) && t.objs[x].kind == k
    ensures forall a, b :: 0 <= a < b < |r| ==> r[a] < r[b]
    decreases t.next - i
  {
    if i >= t.next then []
    else if i in t.objs && t.objs[i].parent == Some(f) && t.objs[i].kind == k then
      var rest := ScanChildren(t, f, k, i + 1);
      assert forall j :: 0 <= j < |rest| ==> rest[j] in rest;
      [i] + rest
    else ScanChildren(t, f, k, i + 1)
  }

  function Subfolders(t: Tree, f: Id): (r: seq<Id>)
    requires WellFormed(t)
    ensures forall x :: x in r <==> IsFolder(t, x) && t.objs[x].parent == Some(f)
  {
    ScanChildren(t, f, Folder, 0)
  }

  function Documents(t: Tree, f: Id): (r: seq<Id>)
    requires WellFormed(t)
    ensures forall x :: x in r <==> IsDocument(t, x) && t.objs[x].parent == Some(f)
  {
    ScanChildren(t, f, Document, 0)
  }

  /** `children`: the subfolders followed by the documents; these are exactly the objects
      whose parent is `f`, each listed once. */
  function Children(t: Tree, f: Id): (r: seq<Id>)
    requires WellFormed(t)
    ensures forall x :: x in r <==> x in t.objs && t.objs[x].parent == Some(f)
    ensures r == Subfolders(t, f) + Documents(t, f)
  {
    Subfolders(t, f) + Documents(t, f)
  }

  function Elems(s: seq<Id>): set<Id> {
    set x | x in s
  }

  /** A list without repetitions has as many members as entries. */
  lemma {:induction false} DistinctCard(s: seq<Id>)
    requires forall a, b :: 0 <= a < b < |s| ==> s[a] != s[b]
    ensures |Elems(s)| == |s|
  {
    if |s| > 0 {
      var tail := Elems(s[1..]);
      DistinctCard(s[1..]);
      assert s[0] !in tail by {
        forall i | 0 <= i < |s[1..]| ensures s[1..][i] != s[0] {
          assert s[1..][i] == s[i + 1];
        }
      }
      assert Elems(s) == tail + {s[0]} by {
        forall x | x in s ensures x in tail + {s[0]} {
          var i :| 0 <= i < |s| && s[i] == x;
          if i > 0 { assert s[1..][i - 1] == x; }
        }
      }
    } else {
      assert Elems(s) == {};
    }
  }

  /** `document_count`: own documents plus, recursively, those of every subfolder. */
  function DocumentCount(t: Tree, f: Id, fuel: nat): nat
    requires WellFormed(t)
    decreases fuel, 1
  {
    |Documents(t, f)| + (if fuel == 0 then 0 else SumCounts(t, Subfolders(t, f), fuel - 1))
  }

  function SumCounts(t: Tree, fs: seq<Id>, fuel: nat): nat
    requires WellFormed(t)
    decreases fuel, 2, |fs|
  {
    if |fs| == 0 then 0 else DocumentCount(t, fs[0], fuel) + SumCounts(t, fs[1..], fuel)
  }

  /** A folder without subfolders counts exactly its own documents. */
  lemma DocumentCountLeaf(t: Tree, f: Id, fuel: nat)
    requires WellFormed(t) && Subfolders(t, f) == []
    ensures DocumentCount(t, f, fuel) == |Documents(t, f)|
  {
  }

  /** The first child of `f` (in id order) whose title is `name`. */
  function ChildNamed(t: Tree, f: Id, name: string, i: nat): (r: Option<Id>)
    ensures r.Some? ==> r.value in t.objs && t.objs[r.value].parent == Some(f) && t.objs[r.value].title == name
    ensures r.None? ==> forall x :: i <= x < t.next && x in t.objs && t.objs[x].parent == Some(f) ==> t.objs[x].title != name
    decreases t.next - i
  {
    if i >= t.next then None
    else if i in t.objs && t.objs[i].parent == Some(f) && t.objs[i].title == name then Some(i)
    else ChildNamed(t, f, name, i + 1)
  }

  /** With unique sibling titles the child found is the only one with that title. */
  lemma ChildNamedUnique(t: Tree, f: Id, x: Id)
    requires WellFormed(t) && x in t.objs && t.objs[x].parent == Some(f)
    ensures ChildNamed(t, f, t.objs[x].title, 0) == Some(x)
  {
  }

  /** Follows `segments` down from `f`, one child title at a time. A document has no
      children, so a path that goes on below a document finds nothing. */
  function Descend(t: Tree, f: Id, segments: seq<string>): Option<Id>
    decreases |segments|
  {
    if |segments| == 0 then Some(f)
    else if IsDocument(t, f) then None
    else match ChildNamed(t, f, segments[0], 0)
      case None => None
      case Some(c) => Descend(t, c, segments[1..])
  }

  /** The failures `get_object_by_path` can raise. */
  datatype LookupError = AssertionError | StopIteration | AttributeError

  /** The descent as written: `toolz.first` over the children raises StopIteration when no
      child has the title, and a document, which has no `children` attribute, raises
      AttributeError when segments are left. */
  function DescendAsWritten(t: Tree, f: Id, segments: seq<string>): (r: Result<Id, LookupError>)
    ensures r.Failure? ==> r.error == StopIteration || r.error == AttributeError
    decreases |segments|
  {
    if |segments| == 0 then Success(f)
    else if IsDocument(t, f) then Failure(AttributeError)
    else match ChildNamed(t, f, segments[0], 0)
      case None => Failure(StopIteration)
      case Some(c) => DescendAsWritten(t, c, segments[1..])
  }

  /** The written descent reaches what the corrected one finds, and raises exactly where the
      corrected one finds nothing. */
  lemma {:induction false} DescendRepairs(t: Tree, f: Id, segments: seq<string>)
    ensures DescendAsWritten(t, f, segments).Success? <==> Descend(t, f, segments).Some?
    ensures DescendAsWritten(t, f, segments).Success? ==>
              Descend(t, f, segments) == Some(DescendAsWritten(t, f, segments).value)
    decreases |segments|
  {
    if |segments| > 0 && !IsDocument(t, f) {
      match ChildNamed(t, f, segments[0], 0)
      case None =>
      case Some(c) => DescendRepairs(t, c, segments[1..]);
    }
  }

  /** The lookup as written raised on a path segment: StopIteration for a missing child,
      AttributeError for a segment below a document. */
  predicate SegmentRaised(r: Result<Option<Id>, LookupError>) {
    r == Failure(StopIteration) || r == Failure(AttributeError)
  }

  predicate WellFormedPath(path: string) {
    "/" <= path && !Contains(path, "//")
  }

  /** `get_object_by_path` as written: the path must start with "/" and hold no "//"; "/"
      is the folder itself; every later segment selects the child with that title. The
      handler catches IndexError, but `toolz.first` reports a missing child with
      StopIteration, and a segment below a document fails with AttributeError, so a miss
      escapes as an exception and None is never returned. */
  function GetObjectByPathAsWritten(t: Tree, f: Id, path: string): (r: Result<Option<Id>, LookupError>)
    ensures r == Failure(AssertionError) <==> !WellFormedPath(path)
    ensures r.Success? ==> r.value.Some?
    ensures path == "/" ==> r == Success(Some(f))
  {
    if !WellFormedPath(path) then Failure(AssertionError)
    else if path == "/" then Success(Some(f))
    else match DescendAsWritten(t, f, Split(path[1..], '/'))
      case Failure(e) => Failure(e)
      case Success(x) => Success(Some(x))
  }

  /** A root folder without children and the path "/x": the lookup raises instead of
      answering None. */
  lemma AsWrittenMissRaises()
    ensures GetObjectByPathAsWritten(Tree(map[0 := Obj(Folder, "root", "root", "", None)], 1, 0), 0, "/x")
            == Failure(StopIteration)
  {
    var t := Tree(map[0 := Obj(Folder, "root", "root", "", None)], 1, 0);
    assert !Contains("/x", "//") by {
      forall i | 0 <= i <= 2 ensures !At("/x", "//", i) {
        if i == 0 { assert "/x"[0..2] == "/x"; }
      }
    }
    assert "/x"[1..] == "x";
    assert Split("x", '/') == ["x"];
    assert ChildNamed(t, 0, "x", 0) == None;
  }

  /** A root folder holding a document "doc", and the path "/doc/x": the written lookup asks
      the document for its children and raises AttributeError. */
  lemma AsWrittenPastDocumentRaises()
    ensures var t := Tree(map[0 := Obj(Folder, "root", "root", "", None),
                              1 := Obj(Document, "doc", "doc", "", Some(0))], 2, 1);
            GetObjectByPathAsWritten(t, 0, "/doc/x") == Failure(AttributeError)
  {
    var t := Tree(map[0 := Obj(Folder, "root", "root", "", None),
                      1 := Obj(Document, "doc", "doc", "", Some(0))], 2, 1);
    DocXPath();
    assert DescendAsWritten(t, 1, ["x"]) == Failure(AttributeError);
    assert DescendAsWritten(t, 0, ["doc", "x"]) == Failure(AttributeError) by {
      assert ChildNamed(t, 0, "doc", 1) == Some(1);
      assert ChildNamed(t, 0, "doc", 0) == Some(1);
      assert ["doc", "x"][1..] == ["x"];
    }
  }

  /** "/doc/x" is a well-formed path of the two segments "doc" and "x". */
  lemma DocXPath()
    ensures WellFormedPath("/doc/x") && Split("/doc/x"[1..], '/') == ["doc", "x"]
  {
    assert NoDoubleSlash("/doc/x");
    NoDoubleSlashContains("/doc/x");
    assert Join(["doc", "x"], '/') == "doc/x";
    SplitJoin(["doc", "x"], '/');
    assert "/doc/x"[1..] == "doc/x";
  }

  /** `get_object_by_path` as intended: a missing segment gives None. */
  function GetObjectByPath(t: Tree, f: Id, path: string): (r: Result<Option<Id>, LookupError>)
    ensures r.Failure? <==> !WellFormedPath(path)
    ensures r.Success? ==> r.value == Descend(t, f, if path == "/" then [] else Split(path[1..], '/'))
    ensures path == "/" ==> r == Success(Some(f))
  {
    if !WellFormedPath(path) then Failure(AssertionError)
    else if path == "/" then Success(Some(f))
    else Success(Descend(t, f, Split(path[1..], '/')))
  }

  /** The corrected lookup agrees with the written one wherever the latter returns, and
      answers None exactly where the latter raises on a segment. */
  lemma GetObjectByPathRepairsMiss(t: Tree, f: Id, path: string)
    ensures GetObjectByPathAsWritten(t, f, path).Success? ==> GetObjectByPath(t, f, path) == GetObjectByPathAsWritten(t, f, path)
    ensures SegmentRaised(GetObjectByPathAsWritten(t, f, path)) <==> GetObjectByPath(t, f, path) == Success(None)
  {
    if WellFormedPath(path) && path != "/" {
      DescendRepairs(t, f, Split(path[1..], '/'));
    }
  }

  /** Titles below the root of chain `c`, top-down. */
  function TitlesDown(t: Tree, c: seq<Id>): (r: seq<string>)
    requires forall i :: 0 <= i < |c| ==> c[i] in t.objs
    ensures |c| >= 1 ==> |r| == |c| - 1
    ensures |c| == 0 ==> r == []
    ensures forall i :: 0 <= i < |r| ==> r[i] == t.objs[c[|r| - 1 - i]].title
  {
    if |c| <= 1 then [] else TitlesDown(t, c[1..]) + [t.objs[c[0]].title]
  }

  lemma JoinSnoc(a: seq<string>, b: string, sep: char)
    requires |a| >= 1
    ensures Join(a + [b], sep) == Join(a, sep) + [sep] + b
    decreases |a|
  {
    if |a| == 1 {
      assert a + [b] == [a[0], b];
    } else {
      assert (a + [b])[1..] == a[1..] + [b];
      JoinSnoc(a[1..], b, sep);
    }
  }

  lemma {:induction false} SegmentsAreJoin(t: Tree, c: seq<Id>)
    requires forall i :: 0 <= i < |c| ==> c[i] in t.objs
    requires |c| >= 2
    ensures Segments(t, c) == "/" + Join(TitlesDown(t, c), '/')
    decreases |c|
  {
    if |c| > 2 {
      SegmentsAreJoin(t, c[1..]);
      JoinSnoc(TitlesDown(t, c[1..]), t.objs[c[0]].title, '/');
    } else {
      assert TitlesDown(t, c[1..]) == [];
    }
  }

  lemma DescendSnoc(t: Tree, f: Id, a: seq<string>, b: string)
    ensures Descend(t, f, a + [b]) ==
            (match Descend(t, f, a) case None => None case Some(y) => Descend(t, y, [b]))
    decreases |a|
  {
    if |a| > 0 {
      assert (a + [b])[1..] == a[1..] + [b];
      match ChildNamed(t, f, a[0], 0)
      case None =>
      case Some(c) => DescendSnoc(t, c, a[1..], b);
    }
  }

  /** Descending from the top of a parent-linked chain by its titles reaches its bottom. */
  lemma {:induction false} DescendChain(t: Tree, c: seq<Id>)
    requires WellFormed(t) && |c| >= 1
    requires forall i :: 0 <= i < |c| ==> c[i] in t.objs
    requires forall i :: 0 <= i < |c| - 1 ==> t.objs[c[i]].parent == Some(c[i + 1])
    ensures Descend(t, c[|c| - 1], TitlesDown(t, c)) == Some(c[0])
    decreases |c|
  {
    if |c| >= 2 {
      DescendChain(t, c[1..]);
      DescendSnoc(t, c[|c| - 1], TitlesDown(t, c[1..]), t.objs[c[0]].title);
      ChildNamedUnique(t, c[1], c[0]);
    }
  }

  predicate NoDoubleSlash(s: string) {
    forall i :: 0 <= i < |s| - 1 ==> !(s[i] == '/' && s[i + 1] == '/')
  }

  lemma NoDoubleSlashContains(s: string)
    requires NoDoubleSlash(s)
    ensures !Contains(s, "//")
  {
    forall i | 0 <= i <= |s| ensures !At(s, "//", i) {
      if i + 2 <= |s| {
        assert s[i..i + 2][0] == s[i] && s[i..i + 2][1] == s[i + 1];
      }
    }
  }

  lemma {:induction false} JoinNoDoubleSlash(parts: seq<string>)
    requires |parts| >= 1
    requires forall i :: 0 <= i < |parts| ==> |parts[i]| > 0 && '/' !in parts[i]
    ensures NoDoubleSlash("/" + Join(parts, '/'))
    decreases |parts|
  {
    var p := parts[0];
    assert NoDoubleSlash("/" + p) by {
      forall i | 0 <= i < |"/" + p| - 1 ensures !(("/" + p)[i] == '/' && ("/" + p)[i + 1] == '/') {
        assert ("/" + p)[i + 1] == p[i];
      }
    }
    if |parts| > 1 {
      JoinNoDoubleSlash(parts[1..]);
      var a := "/" + p;
      var b := "/" + Join(parts[1..], '/');
      assert "/" + Join(parts, '/') == a + b;
      assert a[|a| - 1] == p[|p| - 1] != '/';
      forall i | 0 <= i < |a + b| - 1 ensures !((a + b)[i] == '/' && (a + b)[i + 1] == '/') {
        if i >= |a| {
          assert (a + b)[i] == b[i - |a|] && (a + b)[i + 1] == b[i + 1 - |a|];
        }
      }
    }
  }

  /** Titles that can be spelled as path segments. */
  predicate SegmentTitles(t: Tree) {
    forall id :: id in t.objs ==> |t.objs[id].title| > 0 && '/' !in t.objs[id].title
  }

  /** A non-root path is "/" followed by the titles below the root joined with "/". */
  lemma PathIsJoin(t: Tree, x: Id)
    requires WellFormed(t) && x in t.objs && !IsRoot(t, x)
    ensures |Chain(t, x, t.bound)| >= 2
    ensures Path(t, x, t.bound) == "/" + Join(TitlesDown(t, Chain(t, x, t.bound)), '/')
  {
    var p := t.objs[x].parent.value;
    assert Rooted(t, p, t.bound - 1);
    PathIsSegments(t, x, t.bound);
    SegmentsAreJoin(t, Chain(t, x, t.bound));
  }

  lemma TitlesDownSegments(t: Tree, c: seq<Id>)
    requires SegmentTitles(t)
    requires forall i :: 0 <= i < |c| ==> c[i] in t.objs
    ensures forall i :: 0 <= i < |TitlesDown(t, c)| ==> |TitlesDown(t, c)[i]| > 0 && '/' !in TitlesDown(t, c)[i]
  {
  }

  /** Looking up an object's `path` from the root above it finds the object: the path is
      a faithful address when titles are non-empty and free of "/". */
  lemma PathLookupRoundTrip(t: Tree, x: Id)
    requires WellFormed(t) && SegmentTitles(t) && x in t.objs && !IsRoot(t, x)
    ensures var c := Chain(t, x, t.bound);
            GetObjectByPath(t, c[|c| - 1], Path(t, x, t.bound)) == Success(Some(x))
  {
    var c := Chain(t, x, t.bound);
    PathIsJoin(t, x);
    var titles := TitlesDown(t, c);
    var path := Path(t, x, t.bound);
    TitlesDownSegments(t, c);
    JoinNoDoubleSlash(titles);
    NoDoubleSlashContains(path);
    assert path[1..] == Join(titles, '/');
    SplitJoin(titles, '/');
    DescendChain(t, c);
  }
}
