/** The content repository (documents/repository.py, both variants): lookup by id or path,
    copy, move, rename, delete, and the READ-on-every-ancestor access rule. Creation of
    children (`Folder.create_subfolder` / `create_document`) lives here too. */
module Repository {
  import opened Wrappers
  import opened Text
  import opened DocTree

  /** The exceptions the repository operations let escape. */
  datatype RepoError =
    | ValueError            // get_object with neither id nor path (newer variant)
    | AttributeError        // get_object(path=None) in the older variant
    | PathError(e: LookupError)
    | RootDeletion          // "Can't delete root folder."
    | IntegrityError        // the (parent, title) unique constraint at flush time
    | RecursionError        // copying a folder into its own subtree never terminates

  // ---------------------------------------------------------------------------
  // Root folder and lookups
  // ---------------------------------------------------------------------------

  /** `root_folder`: the first parentless folder (in id order). */
  function RootFrom(t: Tree, i: nat): (r: Option<Id>)
    ensures r.Some? ==> IsFolder(t, r.value) && IsRoot(t, r.value) && r.value >= i
    ensures r.None? ==> forall x :: i <= x < t.next && IsFolder(t, x) ==> !IsRoot(t, x)
    decreases t.next - i
  {
    if i >= t.next then None
    else if IsFolder(t, i) && IsRoot(t, i) then Some(i)
    else RootFrom(t, i + 1)
  }

  function RootFolder(t: Tree): (r: Option<Id>)
    requires WellFormed(t)
    ensures r.Some? ==> IsFolder(t, r.value) && IsRoot(t, r.value)
    ensures r.None? ==> forall x :: IsFolder(t, x) ==> !IsRoot(t, x)
  {
    RootFrom(t, 0)
  }

  /** `get_object_by_id`: the stored object with that id, if any. In the older variant the
      extra `isinstance(obj, CmisObject)` test never fails on this model, where every row is
      a CMIS object. */
  function GetObjectById(t: Tree, id: Id): (r: Option<Id>)
    ensures r.Some? <==> id in t.objs
    ensures r.Some? ==> r.value == id
  {
    if id in t.objs then Some(id) else None
  }

  /** `get_object_by_path`: resolved from the root folder. */
  function GetObjectByPathFromRoot(t: Tree, path: string): (r: Result<Option<Id>, RepoError>)
    requires WellFormed(t)
    ensures RootFolder(t).Some? ==> r == (match GetObjectByPath(t, RootFolder(t).value, path)
                                          case Success(o) => Success(o)
                                          case Failure(e) => Failure(PathError(e)))
  {
    match RootFolder(t)
    case None => if WellFormedPath(path) then Success(None) else Failure(PathError(AssertionError))
    case Some(root) =>
      match GetObjectByPath(t, root, path)
      case Success(o) => Success(o)
      case Failure(e) => Failure(PathError(e))
  }

  /** `get_object` (newer variant): a truthy id wins, else a non-empty path, else
      ValueError. Id 0 and the empty path count as missing. */
  function GetObject(t: Tree, id: Option<Id>, path: Option<string>): (r: Result<Option<Id>, RepoError>)
    requires WellFormed(t)
    ensures id.Some? && id.value != 0 ==> r == Success(GetObjectById(t, id.value))
    ensures (id.None? || id.value == 0) && path.Some? && path.value != "" ==> r == GetObjectByPathFromRoot(t, path.value)
    ensures r == Failure(ValueError) <==> (id.None? || id.value == 0) && (path.None? || path.value == "")
  {
    if id.Some? && id.value != 0 then Success(GetObjectById(t, id.value))
    else if path.Some? && path.value != "" then GetObjectByPathFromRoot(t, path.value)
    else Failure(ValueError)
  }

  /** `get_object` (older variant): a truthy id wins, otherwise the path is used as it is;
      there is no dedicated error, so a missing path fails inside the lookup. */
  function GetObjectOld(t: Tree, id: Option<Id>, path: Option<string>): (r: Result<Option<Id>, RepoError>)
    requires WellFormed(t)
    ensures id.Some? && id.value != 0 ==> r == Success(GetObjectById(t, id.value))
    ensures (id.None? || id.value == 0) && path.Some? ==> r == GetObjectByPathFromRoot(t, path.value)
    ensures r != Failure(ValueError)
  {
    if id.Some? && id.value != 0 then Success(GetObjectById(t, id.value))
    else if path.Some? then GetObjectByPathFromRoot(t, path.value)
    else Failure(RepoError.AttributeError)
  }

  /** The two variants agree whenever an id or a non-empty path is supplied; they differ only
      in how a call with neither fails. */
  lemma GetObjectVariantsAgree(t: Tree, id: Option<Id>, path: Option<string>)
    requires WellFormed(t)
    requires (id.Some? && id.value != 0) || (path.Some? && path.value != "")
    ensures GetObject(t, id, path) == GetObjectOld(t, id, path)
  {
  }

  predicate OfKind(t: Tree, x: Id, k: Kind) {
    x in t.objs && t.objs[x].kind == k
  }

  /** `get_folder_by_path` / `get_document_by_path`: None when nothing is found or the object
      is of the other kind. */
  function GetByPathOfKind(t: Tree, path: string, k: Kind): (r: Result<Option<Id>, RepoError>)
    requires WellFormed(t)
    ensures r.Failure? <==> GetObjectByPathFromRoot(t, path).Failure?
    ensures r.Success? ==> forall x :: r.value == Some(x) <==> GetObjectByPathFromRoot(t, path).value == Some(x) && OfKind(t, x, k)
  {
    match GetObjectByPathFromRoot(t, path)
    case Failure(e) => Failure(e)
    case Success(None) => Success(None)
    case Success(Some(x)) => if x in t.objs && t.objs[x].kind == k then Success(Some(x)) else Success(None)
  }

  /** `get_object_by_path` as the source writes it raises on a segment it cannot follow,
      StopIteration or AttributeError (DocTree.GetObjectByPathAsWritten); the operations of
      this model use the corrected lookup. With a stored root the two agree wherever the
      source returns, and the corrected lookup finds nothing exactly where the source
      raises. */
  lemma FromRootAsWritten(t: Tree, path: string)
    requires WellFormed(t) && RootFolder(t).Some?
    ensures var asWritten := GetObjectByPathAsWritten(t, RootFolder(t).value, path);
            (GetObjectByPathFromRoot(t, path) == Success(None) <==> SegmentRaised(asWritten))
            && (asWritten.Success? ==> GetObjectByPathFromRoot(t, path) == Success(asWritten.value))
  {
    GetObjectByPathRepairsMiss(t, RootFolder(t).value, path);
  }

  // ---------------------------------------------------------------------------
  // Subtrees and ancestry
  // ---------------------------------------------------------------------------

  /** `x` is `y` or one of its ancestors, reached within `n` parent steps. */
  predicate Above(t: Tree, y: Id, x: Id, n: nat)
    decreases n
  {
    y in t.objs &&
    (y == x || match t.objs[y].parent
               case None => false
               case Some(p) => n > 0 && Above(t, p, x, n - 1))
  }

  /** The object and everything below it. */
  function Subtree(t: Tree, x: Id): (r: set<Id>)
    ensures forall y :: y in r <==> y in t.objs && Above(t, y, x, t.bound)
  {
    set y | y in t.objs && Above(t, y, x, t.bound)
  }

  /** Ancestors of a rooted object are rooted with the same fuel. */
  lemma {:induction false} AboveRooted(t: Tree, y: Id, x: Id, n: nat, m: nat)
    requires Rooted(t, y, n) && Above(t, y, x, m)
    ensures Rooted(t, x, n)
    decreases m
  {
    if y != x {
      var p := t.objs[y].parent.value;
      AboveRooted(t, p, x, n - 1, m - 1);
      RootedMono(t, x, n - 1, n);
    }
  }

  /** On a rooted object, the fuel that roots it suffices to find any of its ancestors. */
  lemma {:induction false} AboveFuel(t: Tree, y: Id, x: Id, n: nat, m: nat)
    requires Rooted(t, y, n) && Above(t, y, x, m)
    ensures Above(t, y, x, n)
    decreases m
  {
    if y != x {
      AboveFuel(t, t.objs[y].parent.value, x, n - 1, m - 1);
    }
  }

  /** An object whose parent lies below it reaches no root. */
  lemma {:induction false} NoCycle(t: Tree, x: Id, p: Id, m: nat, k: nat)
    requires x in t.objs && t.objs[x].parent == Some(p) && Above(t, p, x, m)
    ensures !Rooted(t, x, k)
    decreases k
  {
    if k > 0 && Rooted(t, x, k) {
      AboveRooted(t, p, x, k - 1, m);
      NoCycle(t, x, p, m, k - 1);
    }
  }

  /** The parent walk from `y` meets no member of `f` and reaches a root within `n` steps; this
      is the loop in `move_multiple` that inspects the target and its ancestors. */
  predicate Avoids(t: Tree, y: Id, f: set<Id>, n: nat)
    decreases n
  {
    y in t.objs && y !in f &&
    match t.objs[y].parent
    case None => true
    case Some(p) => n > 0 && Avoids(t, p, f, n - 1)
  }

  /** On a rooted object, avoiding `f` means that no ancestor-or-self lies in `f`. */
  lemma {:induction false} AvoidsAbove(t: Tree, y: Id, f: set<Id>, n: nat)
    requires Rooted(t, y, n)
    ensures Avoids(t, y, f, n) <==> forall x :: x in f ==> !Above(t, y, x, n)
    decreases n
  {
    match t.objs[y].parent
    case None =>
    case Some(p) => AvoidsAbove(t, p, f, n - 1);
  }

  /** `Above` allows more steps than it needs. */
  lemma {:induction false} AboveMono(t: Tree, y: Id, x: Id, n: nat, m: nat)
    requires Above(t, y, x, n) && n <= m
    ensures Above(t, y, x, m)
    decreases n
  {
    if y != x {
      AboveMono(t, t.objs[y].parent.value, x, n - 1, m - 1);
    }
  }

  /** One more step up: what lies below a child of `f` lies below `f`. */
  lemma {:induction false} AboveExtend(t: Tree, y: Id, c: Id, f: Id, n: nat)
    requires Above(t, y, c, n) && c in t.objs && t.objs[c].parent == Some(f) && f in t.objs
    ensures Above(t, y, f, n + 1)
    decreases n
  {
    if y != c {
      AboveExtend(t, t.objs[y].parent.value, c, f, n - 1);
    }
  }

  /** The walk from `p` up to an ancestor `f` passes through a child of `f`. */
  lemma {:induction false} ChildOnPath(t: Tree, p: Id, f: Id, n: nat) returns (c: Id)
    requires Above(t, p, f, n) && p != f
    ensures c in t.objs && t.objs[c].parent == Some(f) && Above(t, p, c, n - 1)
    decreases n
  {
    var q := t.objs[p].parent.value;
    if q == f {
      c := p;
    } else {
      c := ChildOnPath(t, q, f, n - 1);
    }
  }

  /** Everything strictly above an object is a folder. */
  lemma {:induction false} AboveIsFolder(t: Tree, y: Id, x: Id, n: nat)
    requires WellFormed(t) && Above(t, y, x, n) && y != x
    ensures IsFolder(t, x)
    decreases n
  {
    var p := t.objs[y].parent.value;
    if p != x {
      AboveIsFolder(t, p, x, n - 1);
    }
  }

  /** The ancestors of an object lie on one line. */
  lemma {:induction false} AboveLinear(t: Tree, y: Id, a: Id, b: Id, m: nat, k: nat)
    requires Above(t, y, a, m) && Above(t, y, b, k)
    ensures Above(t, a, b, k) || Above(t, b, a, m)
    decreases m
  {
    if y != a && y != b {
      var p := t.objs[y].parent.value;
      AboveLinear(t, p, a, b, m - 1, k - 1);
      if Above(t, a, b, k - 1) {
        AboveMono(t, a, b, k - 1, k);
      } else {
        AboveMono(t, b, a, m - 1, m);
      }
    }
  }

  /** Nothing lies below two different children of the same folder. */
  lemma SiblingsDisjoint(t: Tree, f: Id, a: Id, b: Id, y: Id, m: nat, k: nat)
    requires WellFormed(t) && a != b && a in t.objs && b in t.objs
    requires t.objs[a].parent == Some(f) && t.objs[b].parent == Some(f)
    ensures !(Above(t, y, a, m) && Above(t, y, b, k))
  {
    if Above(t, y, a, m) && Above(t, y, b, k) {
      AboveLinear(t, y, a, b, m, k);
      if Above(t, a, b, k) {
        NoCycle(t, b, f, k - 1, t.bound);
      } else {
        NoCycle(t, a, f, m - 1, t.bound);
      }
    }
  }

  /** The documents at most `n` folder levels below `f`: those within `n + 1` parent
      steps, which is what `document_count` with `n` levels of fuel reaches. */
  function DocsBelow(t: Tree, f: Id, n: nat): set<Id> {
    set y | y in t.objs && IsDocument(t, y) && Above(t, y, f, n + 1)
  }

  /** The documents at most `n` folder levels below one of `fs`. */
  function UnionBelow(t: Tree, fs: seq<Id>, n: nat): set<Id> {
    if |fs| == 0 then {} else DocsBelow(t, fs[0], n) + UnionBelow(t, fs[1..], n)
  }

  /** The union holds exactly what some listed folder reaches. */
  lemma {:induction false} UnionMembers(t: Tree, fs: seq<Id>, n: nat)
    ensures var r := UnionBelow(t, fs, n);
            (forall y :: y in r ==> exists i :: 0 <= i < |fs| && y in DocsBelow(t, fs[i], n))
            && (forall i :: 0 <= i < |fs| ==> DocsBelow(t, fs[i], n) <= r)
            && (forall x :: x in fs ==> DocsBelow(t, x, n) <= r)
  {
    if |fs| > 0 {
      UnionMembers(t, fs[1..], n);
      assert forall i :: 1 <= i < |fs| ==> fs[i] == fs[1..][i - 1];
    }
  }

  /** What a listed folder reaches is in the union. */
  lemma UnionHas(t: Tree, fs: seq<Id>, n: nat, x: Id, y: Id)
    requires x in fs && y in DocsBelow(t, x, n)
    ensures y in UnionBelow(t, fs, n)
  {
    UnionMembers(t, fs, n);
  }

  /** Whatever is in the union some listed folder reaches. */
  lemma UnionWitness(t: Tree, fs: seq<Id>, n: nat, y: Id) returns (i: nat)
    requires y in UnionBelow(t, fs, n)
    ensures i < |fs| && y in DocsBelow(t, fs[i], n)
  {
    UnionMembers(t, fs, n);
    i :| 0 <= i < |fs| && y in DocsBelow(t, fs[i], n);
  }

  /** The documents with parent `f`. */
  function OwnDocuments(t: Tree, f: Id): set<Id> {
    set y | y in t.objs && IsDocument(t, y) && t.objs[y].parent == Some(f)
  }

  /** A document at most `n` levels below a folder is one of its own or, when `n > 0`, lies
      at most `n - 1` levels below one of its subfolders. */
  lemma WithinSub(t: Tree, f: Id, n: nat, y: Id)
    requires WellFormed(t) && IsFolder(t, f) && y in DocsBelow(t, f, n)
    ensures y in OwnDocuments(t, f) || (n > 0 && y in UnionBelow(t, Subfolders(t, f), n - 1))
  {
    if y !in OwnDocuments(t, f) {
      var c := BelowChild(t, f, n, y);
      UnionHas(t, Subfolders(t, f), n - 1, c, y);
    }
  }

  /** A document below a folder that is not one of its own lies below one of its
      subfolders, one level less deep. */
  lemma BelowChild(t: Tree, f: Id, n: nat, y: Id) returns (c: Id)
    requires WellFormed(t) && IsFolder(t, f) && y in DocsBelow(t, f, n) && y !in OwnDocuments(t, f)
    ensures n > 0 && c in Subfolders(t, f) && y in DocsBelow(t, c, n - 1)
  {
    var p := t.objs[y].parent.value;
    c := ChildOnPath(t, p, f, n);
    if c != p {
      AboveIsFolder(t, p, c, n - 1);
    }
  }

  /** What lies at most `n - 1` levels below a subfolder lies at most `n` levels below the
      folder, and is none of the folder's own documents. */
  lemma WithinSup(t: Tree, f: Id, n: nat, y: Id)
    requires WellFormed(t) && IsFolder(t, f) && n > 0 && y in UnionBelow(t, Subfolders(t, f), n - 1)
    ensures y in DocsBelow(t, f, n) && y !in OwnDocuments(t, f)
  {
    var fs := Subfolders(t, f);
    var i := UnionWitness(t, fs, n - 1, y);
    AboveExtend(t, y, fs[i], f, n);
    if y in OwnDocuments(t, f) {
      OwnNotBelowSibling(t, f, fs[i], y, n);
    }
  }

  /** A document of `f` lies below no subfolder of `f`. */
  lemma OwnNotBelowSibling(t: Tree, f: Id, c: Id, y: Id, n: nat)
    requires WellFormed(t) && IsFolder(t, c) && t.objs[c].parent == Some(f)
    requires IsDocument(t, y) && t.objs[y].parent == Some(f)
    ensures !Above(t, y, c, n)
  {
    if Above(t, y, c, n) {
      assert y != c;
      assert Above(t, f, c, n - 1);
      NoCycle(t, c, f, n - 1, t.bound);
    }
  }

  /** A folder's documents at most `n` levels down are its own documents and, when `n > 0`,
      those at most `n - 1` levels below its subfolders; the two parts are disjoint. */
  lemma WithinSplit(t: Tree, f: Id, n: nat)
    requires WellFormed(t) && IsFolder(t, f)
    ensures n == 0 ==> DocsBelow(t, f, 0) == OwnDocuments(t, f)
    ensures n > 0 ==> DocsBelow(t, f, n) == OwnDocuments(t, f) + UnionBelow(t, Subfolders(t, f), n - 1)
    ensures n > 0 ==> OwnDocuments(t, f) !! UnionBelow(t, Subfolders(t, f), n - 1)
  {
    var all := DocsBelow(t, f, n);
    var own := OwnDocuments(t, f);
    forall y | y in all ensures y in own || (n > 0 && y in UnionBelow(t, Subfolders(t, f), n - 1)) {
      WithinSub(t, f, n, y);
    }
    if n > 0 {
      var below := UnionBelow(t, Subfolders(t, f), n - 1);
      forall y | y in below ensures y in all && y !in own {
        WithinSup(t, f, n, y);
      }
    }
    forall y | y in own ensures y in all {
      assert Above(t, f, f, n);
    }
  }

  /** Disjoint sets add up. */
  lemma CardDisjoint(a: set<Id>, b: set<Id>)
    requires a !! b
    ensures |a + b| == |a| + |b|
  {
  }

  /** The number of a folder's documents at most `n` levels down: its own documents plus,
      when `n > 0`, the union over its subfolders one level less deep. */
  lemma CountSplit(t: Tree, f: Id, n: nat)
    requires WellFormed(t) && IsFolder(t, f)
    ensures n == 0 ==> |DocsBelow(t, f, n)| == |Documents(t, f)|
    ensures n > 0 ==> |DocsBelow(t, f, n)| == |Documents(t, f)| + |UnionBelow(t, Subfolders(t, f), n - 1)|
  {
    var ds := Documents(t, f);
    DistinctCard(ds);
    assert Elems(ds) == OwnDocuments(t, f);
    WithinSplit(t, f, n);
    if n > 0 {
      CardDisjoint(OwnDocuments(t, f), UnionBelow(t, Subfolders(t, f), n - 1));
    }
  }

  /** `document_count` with `n` levels of fuel counts the documents at most `n` levels
      down. */
  lemma {:induction false} CountWithin(t: Tree, f: Id, n: nat)
    requires WellFormed(t) && IsFolder(t, f)
    ensures DocumentCount(t, f, n) == |DocsBelow(t, f, n)|
    decreases n, 1
  {
    if n > 0 {
      SumWithin(t, f, 0, n - 1);
    }
    CountLink(t, f, n);
  }

  /** `document_count` is right for a folder once the sum over its subfolders is; without
      fuel it counts the folder's own documents, which are all the documents zero levels
      down. */
  lemma CountLink(t: Tree, f: Id, n: nat)
    requires WellFormed(t) && IsFolder(t, f)
    ensures n == 0 || SumMatches(t, Subfolders(t, f)[0..], n - 1) ==> CountMatches(t, f, n)
  {
    if n > 0 {
      assert Subfolders(t, f)[0..] == Subfolders(t, f);
    }
    CountSplit(t, f, n);
    CountStep(t, f, n);
  }

  /** One level of `document_count`: the folder's own documents plus, with fuel left, the
      sum over its subfolders. */
  lemma CountStep(t: Tree, f: Id, n: nat)
    requires WellFormed(t)
    ensures n == 0 ==> DocumentCount(t, f, n) == |Documents(t, f)|
    ensures n > 0 ==> DocumentCount(t, f, n) == |Documents(t, f)| + SumCounts(t, Subfolders(t, f), n - 1)
  {
  }

  /** `fs` lists folders whose parent is `f`, each once. */
  predicate SiblingFolders(t: Tree, f: Id, fs: seq<Id>) {
    (forall i :: 0 <= i < |fs| ==> IsFolder(t, fs[i]) && t.objs[fs[i]].parent == Some(f))
    && (forall a, b :: 0 <= a < b < |fs| ==> fs[a] != fs[b])
  }

  /** The subfolders of `f` are folders whose parent is `f`, each listed once. */
  lemma SubfoldersListed(t: Tree, f: Id)
    requires WellFormed(t)
    ensures SiblingFolders(t, f, Subfolders(t, f))
  {
    var fs := Subfolders(t, f);
    assert forall i :: 0 <= i < |fs| ==> fs[i] in fs;
  }

  /** `document_count` with `n` levels of fuel counts the documents `n` levels down. */
  predicate CountMatches(t: Tree, f: Id, n: nat)
    requires WellFormed(t)
  {
    DocumentCount(t, f, n) == |DocsBelow(t, f, n)|
  }

  /** The sum of the counts over `fs` counts the union of their documents. */
  predicate SumMatches(t: Tree, fs: seq<Id>, m: nat)
    requires WellFormed(t)
  {
    SumCounts(t, fs, m) == |UnionBelow(t, fs, m)|
  }

  /** Summing over the subfolders of `f` from the `k`-th on counts the union of their
      documents. */
  lemma {:induction false} SumWithin(t: Tree, f: Id, k: nat, m: nat)
    requires WellFormed(t) && k <= |Subfolders(t, f)|
    ensures SumMatches(t, Subfolders(t, f)[k..], m)
    decreases m, 2, |Subfolders(t, f)| - k
  {
    var fs := Subfolders(t, f)[k..];
    if |fs| > 0 {
      SubfoldersListed(t, f);
      SiblingsDrop(t, f, Subfolders(t, f), k);
      CountWithin(t, fs[0], m);
      SumWithin(t, f, k + 1, m);
      assert Subfolders(t, f)[k + 1..] == fs[1..];
      UnionCount(t, f, fs, m);
      assert SumCounts(t, fs, m) == DocumentCount(t, fs[0], m) + SumCounts(t, fs[1..], m);
    }
  }

  /** What holds of a list of distinct subfolders holds of its suffixes. */
  lemma SiblingsDrop(t: Tree, f: Id, fs: seq<Id>, k: nat)
    requires SiblingFolders(t, f, fs) && k <= |fs|
    ensures SiblingFolders(t, f, fs[k..])
  {
    var rest := fs[k..];
    assert forall i :: 0 <= i < |rest| ==> rest[i] == fs[k + i];
  }

  /** The size of the union over a list of subfolders adds the first one's documents to the
      size of the union over the others. */
  lemma UnionCount(t: Tree, f: Id, fs: seq<Id>, n: nat)
    requires WellFormed(t) && |fs| > 0
    requires SiblingFolders(t, f, fs)
    ensures |UnionBelow(t, fs, n)| == |DocsBelow(t, fs[0], n)| + |UnionBelow(t, fs[1..], n)|
  {
    UnionHead(t, f, fs, n);
    CardDisjoint(DocsBelow(t, fs[0], n), UnionBelow(t, fs[1..], n));
  }

  /** The union over a list of subfolders is the first one's documents and, apart from them,
      the union over the others. */
  lemma UnionHead(t: Tree, f: Id, fs: seq<Id>, n: nat)
    requires WellFormed(t) && |fs| > 0
    requires SiblingFolders(t, f, fs)
    ensures UnionBelow(t, fs, n) == DocsBelow(t, fs[0], n) + UnionBelow(t, fs[1..], n)
    ensures DocsBelow(t, fs[0], n) !! UnionBelow(t, fs[1..], n)
  {
    var rest := fs[1..];
    var later := UnionBelow(t, rest, n);
    var first := DocsBelow(t, fs[0], n);
    UnionMembers(t, rest, n);
    forall y | y in later ensures y !in first {
      var i :| 0 <= i < |rest| && y in DocsBelow(t, rest[i], n);
      assert rest[i] == fs[i + 1];
      SiblingsDisjoint(t, f, fs[0], rest[i], y, n + 1, n + 1);
    }
  }

  /** `document_count` counts exactly the documents of the folder's subtree. */
  lemma DocumentCountIsSubtree(t: Tree, f: Id)
    requires WellFormed(t) && IsFolder(t, f)
    ensures DocumentCount(t, f, t.bound) == |set y | y in Subtree(t, f) && IsDocument(t, y)|
  {
    CountWithin(t, f, t.bound);
    DocsBelowBound(t, f);
  }

  /** With as many levels as the tree has objects, the documents below a folder are those
      of its subtree. */
  lemma DocsBelowBound(t: Tree, f: Id)
    requires WellFormed(t) && IsFolder(t, f)
    ensures DocsBelow(t, f, t.bound) == set y | y in Subtree(t, f) && IsDocument(t, y)
  {
    forall y | y in t.objs ensures Above(t, y, f, t.bound + 1) <==> Above(t, y, f, t.bound) {
      if Above(t, y, f, t.bound + 1) {
        AboveFuel(t, y, f, t.bound, t.bound + 1);
      }
      if Above(t, y, f, t.bound) {
        AboveMono(t, y, f, t.bound, t.bound + 1);
      }
    }
  }

  // ---------------------------------------------------------------------------
  // Move
  // ---------------------------------------------------------------------------

  /** Re-parents every object of `f` under `dest`. */
  function Reparent(t: Tree, f: set<Id>, dest: Id): (r: Tree)
    ensures r.objs.Keys == t.objs.Keys && r.next == t.next
    ensures forall y :: y in t.objs && y in f ==> r.objs[y] == t.objs[y].(parent := Some(dest))
    ensures forall y :: y in t.objs && y !in f ==> r.objs[y] == t.objs[y]
  {
    var objs := map y | y in t.objs :: if y in f then t.objs[y].(parent := Some(dest)) else t.objs[y];
    Tree(objs, t.next, 2 * t.bound + 1)
  }

  lemma {:induction false} ReparentKeepsAvoiding(t: Tree, f: set<Id>, dest: Id, y: Id, n: nat)
    requires Avoids(t, y, f, n)
    ensures Rooted(Reparent(t, f, dest), y, n)
    decreases n
  {
    match t.objs[y].parent
    case None =>
    case Some(p) => ReparentKeepsAvoiding(t, f, dest, p, n - 1);
  }

  lemma {:induction false} ReparentRooted(t: Tree, f: set<Id>, dest: Id, y: Id, k: nat)
    requires Avoids(t, dest, f, t.bound)
    requires Rooted(t, y, k)
    ensures Rooted(Reparent(t, f, dest), y, k + 1 + t.bound)
    decreases k
  {
    var r := Reparent(t, f, dest);
    if y in f {
      ReparentKeepsAvoiding(t, f, dest, dest, t.bound);
      RootedMono(r, dest, t.bound, k + t.bound);
    } else {
      match t.objs[y].parent
      case None =>
      case Some(p) => ReparentRooted(t, f, dest, p, k - 1);
    }
  }

  /** No object of `f` has a sibling-to-be under `dest` with the same title. */
  predicate NoClash(t: Tree, f: set<Id>, dest: Id) {
    forall x, y :: x in f && x in t.objs && y in t.objs && y !in f && t.objs[y].parent == Some(dest)
      ==> t.objs[x].title != t.objs[y].title
  }

  /** Objects of `f` never share a title with each other. */
  predicate DistinctTitles(t: Tree, f: set<Id>) {
    forall x, y :: x in f && y in f && x in t.objs && y in t.objs && x != y ==> t.objs[x].title != t.objs[y].title
  }

  /** Moving objects under a folder whose ancestry avoids them keeps the tree well formed:
      no cycle can appear, parents stay folders, and sibling titles stay unique. */
  lemma ReparentWellFormed(t: Tree, f: set<Id>, dest: Id)
    requires WellFormed(t) && IsFolder(t, dest)
    requires Avoids(t, dest, f, t.bound)
    requires NoClash(t, f, dest) && DistinctTitles(t, f)
    ensures WellFormed(Reparent(t, f, dest))
  {
    var r := Reparent(t, f, dest);
    forall y | y in r.objs ensures Rooted(r, y, r.bound) {
      ReparentRooted(t, f, dest, y, t.bound);
    }
    ReparentUniqueTitles(t, f, dest);
  }

  /** Sibling titles stay unique: a moved object meets the destination's children, which
      `NoClash` covers, or another moved object, which `DistinctTitles` covers. */
  lemma ReparentUniqueTitles(t: Tree, f: set<Id>, dest: Id)
    requires UniqueTitles(t) && NoClash(t, f, dest) && DistinctTitles(t, f)
    ensures UniqueTitles(Reparent(t, f, dest))
  {
    var r := Reparent(t, f, dest);
    forall a, b | a in r.objs && b in r.objs && a != b && r.objs[a].parent.Some? && r.objs[a].parent == r.objs[b].parent
      ensures r.objs[a].title != r.objs[b].title
    {
      assert r.objs[a].title == t.objs[a].title && r.objs[b].title == t.objs[b].title;
    }
  }

  /** `move_object`: the object is re-parented under `dest_folder`, and renamed when a
      non-empty `dest_title` is given. */
  function MoveObject(t: Tree, x: Id, dest: Id, destTitle: Option<string>): (r: Tree)
    requires x in t.objs
    ensures r.objs.Keys == t.objs.Keys
    ensures r.objs[x].parent == Some(dest)
    ensures destTitle.Some? && destTitle.value != "" ==> r.objs[x].title == destTitle.value == r.objs[x].name
    ensures destTitle.None? || destTitle.value == "" ==> r.objs[x].title == t.objs[x].title
    ensures forall y :: y in t.objs && y != x ==> r.objs[y] == t.objs[y]
  {
    var m := Reparent(t, {x}, dest);
    if destTitle.Some? && destTitle.value != "" then
      m.(objs := m.objs[x := SetTitle(m.objs[x], destTitle.value)])
    else m
  }

  /** A move whose destination is not below the moved object keeps the tree well formed; the
      object becomes a child of the destination and stops being one of its old parent. */
  lemma MoveObjectChildren(t: Tree, x: Id, dest: Id)
    requires WellFormed(t) && x in t.objs && IsFolder(t, dest) && dest !in Subtree(t, x)
    requires NoClash(t, {x}, dest)
    ensures WellFormed(MoveObject(t, x, dest, None))
    ensures x in Children(MoveObject(t, x, dest, None), dest)
    ensures t.objs[x].parent != Some(dest) && t.objs[x].parent.Some? ==>
              x !in Children(MoveObject(t, x, dest, None), t.objs[x].parent.value)
  {
    AvoidsAbove(t, dest, {x}, t.bound);
    ReparentWellFormed(t, {x}, dest);
  }

  lemma {:induction false} AboveUntouched(t: Tree, r: Tree, y: Id, x: Id, n: nat)
    requires Above(t, y, x, n) && x in r.objs
    requires forall z :: z in t.objs && z != x ==> z in r.objs && r.objs[z].parent == t.objs[z].parent
    ensures Above(r, y, x, n)
    decreases n
  {
    if y != x {
      AboveUntouched(t, r, t.objs[y].parent.value, x, n - 1);
    }
  }

  /** Moving an object below itself breaks the tree: the moved object no longer reaches a
      root. `move_object` does not check this; `move_multiple` does. */
  lemma MoveIntoOwnSubtreeLoops(t: Tree, x: Id, dest: Id)
    requires WellFormed(t) && x in t.objs && dest in Subtree(t, x)
    ensures !WellFormed(MoveObject(t, x, dest, None))
  {
    var r := MoveObject(t, x, dest, None);
    AboveUntouched(t, r, dest, x, t.bound);
    NoCycle(r, x, dest, t.bound, r.bound);
  }

  // ---------------------------------------------------------------------------
  // Rename
  // ---------------------------------------------------------------------------

  /** `rename_object`: only the title (and the synchronised name) changes. */
  function RenameObject(t: Tree, x: Id, title: string): (r: Tree)
    requires x in t.objs
    ensures r.objs.Keys == t.objs.Keys && r.next == t.next && r.bound == t.bound
    ensures r.objs[x] == SetTitle(t.objs[x], title)
    ensures forall y :: y in t.objs && y != x ==> r.objs[y] == t.objs[y]
  {
    t.(objs := t.objs[x := SetTitle(t.objs[x], title)])
  }

  /** Paths are derived: after a rename the object's path ends with the new title, and the
      path of anything outside the renamed subtree is unchanged. */
  lemma {:induction false} RenamePaths(t: Tree, x: Id, title: string, y: Id, n: nat)
    requires x in t.objs && Rooted(t, y, n)
    ensures !Above(t, y, x, n) ==> Path(RenameObject(t, x, title), y, n) == Path(t, y, n)
    ensures y == x && t.objs[x].parent.Some? ==>
              Path(RenameObject(t, x, title), x, n) == Path(t, t.objs[x].parent.value, n - 1) + "/" + title
    decreases n
  {
    match t.objs[y].parent
    case None =>
    case Some(p) =>
      if y == x && Above(t, p, x, n - 1) {
        NoCycle(t, x, p, n - 1, n);
      }
      RenamePaths(t, x, title, p, n - 1);
  }

  // ---------------------------------------------------------------------------
  // Delete
  // ---------------------------------------------------------------------------

  /** `delete_object`: the root folder cannot be deleted; otherwise the object leaves its
      parent's collection and the cascade removes everything below it. */
  function DeleteObject(t: Tree, x: Id): (r: Result<Tree, RepoError>)
    requires x in t.objs
    ensures r.Failure? <==> IsRoot(t, x)
    ensures r.Failure? ==> r.error == RootDeletion
    ensures r.Success? ==> x !in r.value.objs && r.value.objs.Keys == t.objs.Keys - Subtree(t, x)
    ensures r.Success? ==> forall y :: y in r.value.objs ==> r.value.objs[y] == t.objs[y]
  {
    if IsRoot(t, x) then Failure(RootDeletion)
    else
      var gone := Subtree(t, x);
      Success(t.(objs := map y | y in t.objs && y !in gone :: t.objs[y]))
  }

  lemma {:induction false} DeleteKeepsRooted(t: Tree, x: Id, y: Id, n: nat)
    requires WellFormed(t) && x in t.objs && !IsRoot(t, x)
    requires n <= t.bound && Rooted(t, y, n) && y !in Subtree(t, x)
    ensures Rooted(DeleteObject(t, x).value, y, n)
    decreases n
  {
    match t.objs[y].parent
    case None =>
    case Some(p) =>
      if Above(t, p, x, t.bound) {
        AboveFuel(t, p, x, n - 1, t.bound);
        RootedMono(t, y, n, t.bound);
        AboveFuel(t, y, x, t.bound, n);
      }
      DeleteKeepsRooted(t, x, p, n - 1);
  }

  /** Deleting keeps the tree well formed, and the deleted object is no longer a child of its
      parent while its siblings remain. */
  lemma DeleteObjectWellFormed(t: Tree, x: Id)
    requires WellFormed(t) && x in t.objs && !IsRoot(t, x)
    ensures WellFormed(DeleteObject(t, x).value)
    ensures x !in Children(DeleteObject(t, x).value, t.objs[x].parent.value)
    ensures forall y :: y in Children(t, t.objs[x].parent.value) && y != x ==>
              y in Children(DeleteObject(t, x).value, t.objs[x].parent.value)
  {
    var r := DeleteObject(t, x).value;
    forall y | y in r.objs ensures Rooted(r, y, r.bound) {
      DeleteKeepsRooted(t, x, y, t.bound);
    }
    var p := t.objs[x].parent.value;
    forall y | y in Children(t, p) && y != x ensures y in r.objs {
      if Above(t, y, x, t.bound) {
        NoCycle(t, x, p, t.bound - 1, t.bound);
      }
    }
  }

  /** `session.delete(obj)`, as the WebDAV and CMIS handlers use it: the object and (by
      cascade) everything below it go, with no root check. */
  function RemoveSubtree(t: Tree, x: Id): (r: Tree)
    ensures r.objs.Keys == t.objs.Keys - Subtree(t, x)
    ensures forall y :: y in r.objs ==> r.objs[y] == t.objs[y]
    ensures r.next == t.next && r.bound == t.bound
  {
    var sub := Subtree(t, x);
    Tree(map y | y in t.objs && y !in sub :: t.objs[y], t.next, t.bound)
  }

  /** For anything but the root, the session-level delete removes exactly what
      `delete_object` removes; only the root, which `delete_object` refuses, differs. */
  lemma RemoveSubtreeIsDeleteObject(t: Tree, x: Id)
    requires x in t.objs
    ensures !IsRoot(t, x) ==> DeleteObject(t, x) == Success(RemoveSubtree(t, x))
    ensures IsRoot(t, x) ==> DeleteObject(t, x).Failure?
  {
    if !IsRoot(t, x) {
      var a := DeleteObject(t, x).value;
      var b := RemoveSubtree(t, x);
      assert a.objs == b.objs;
      assert a.next == b.next && a.bound == b.bound by {
        assert DeleteObject(t, x) == Success(Tree(map y | y in t.objs && y !in Subtree(t, x) :: t.objs[y], t.next, t.bound));
      }
    }
  }

  // ---------------------------------------------------------------------------
  // Creation and copy
  // ---------------------------------------------------------------------------

  /** A sibling under `f` already carries `title`. */
  predicate TitleTaken(t: Tree, f: Id, title: string) {
    exists y :: y in t.objs && t.objs[y].parent == Some(f) && t.objs[y].title == title
  }

  /** `create_subfolder` / `create_document`: a new object under folder `f`; a sibling with
      the same title makes the flush fail. */
  function CreateChild(t: Tree, f: Id, k: Kind, title: string): (r: Result<(Tree, Id), RepoError>)
    requires IsFolder(t, f) && forall y :: y in t.objs ==> y < t.next
    ensures r.Failure? <==> TitleTaken(t, f, title)
    ensures r.Success? ==> r.value.1 !in t.objs
    ensures r.Success? ==> r.value.0.objs == t.objs[r.value.1 := Obj(k, title, title, "", Some(f))]
  {
    if TitleTaken(t, f, title) then Failure(IntegrityError)
    else Success((Tree(t.objs[t.next := Obj(k, title, title, "", Some(f))], t.next + 1, t.bound + 1), t.next))
  }

  lemma {:induction false} ExtendKeepsRooted(t: Tree, t2: Tree, y: Id, n: nat)
    requires Rooted(t, y, n) && forall z :: z in t.objs ==> z in t2.objs && t2.objs[z] == t.objs[z]
    ensures Rooted(t2, y, n)
    decreases n
  {
    match t.objs[y].parent
    case None =>
    case Some(p) => ExtendKeepsRooted(t, t2, p, n - 1);
  }

  /** A created child is listed among its folder's children and the tree stays well formed. */
  lemma CreateChildWellFormed(t: Tree, f: Id, k: Kind, title: string)
    requires WellFormed(t) && IsFolder(t, f) && CreateChild(t, f, k, title).Success?
    ensures WellFormed(CreateChild(t, f, k, title).value.0)
    ensures CreateChild(t, f, k, title).value.1 in Children(CreateChild(t, f, k, title).value.0, f)
  {
    var t2 := CreateChild(t, f, k, title).value.0;
    var id := t.next;
    forall y | y in t2.objs ensures Rooted(t2, y, t2.bound) {
      if y == id {
        ExtendKeepsRooted(t, t2, f, t.bound);
      } else {
        ExtendKeepsRooted(t, t2, y, t.bound);
        RootedMono(t2, y, t.bound, t2.bound);
      }
    }
  }

  /** The clone of one object of the copied subtree: the top gets the destination and the
      new title; every other clone hangs under the clone of its parent. */
  function CloneOf(t: Tree, x: Id, dest: Id, title: string, y: Id): (o: Obj)
    requires y in t.objs
    ensures o.kind == t.objs[y].kind && o.description == t.objs[y].description
    ensures y == x ==> o.title == title && o.name == title && o.parent == Some(dest)
    ensures y != x ==> o.title == t.objs[y].title
    ensures y != x && t.objs[y].parent.Some? ==> o.parent == Some(t.next + t.objs[y].parent.value)
  {
    if y == x then t.objs[y].(title := title, name := title, parent := Some(dest))
    else match t.objs[y].parent
      case None => t.objs[y]
      case Some(p) => t.objs[y].(parent := Some(t.next + p))
  }

  /** `copy_object`: a clone of `x` titled `dest_title` (or its own title when that is empty)
      goes under `dest`, and every object below `x` is cloned below the clone. The clone of
      object `y` gets the fresh id `next + y`. Copying a folder into its own subtree walks the
      live, growing collections forever. */
  function CopyObject(t: Tree, x: Id, dest: Id, destTitle: Option<string>): (r: Result<(Tree, Id), RepoError>)
    requires (forall y :: y in t.objs ==> y < t.next) && x in t.objs
    ensures r.Failure? ==> r.error == RecursionError || r.error == IntegrityError
    ensures r == Failure(RecursionError) <==> dest in Subtree(t, x) && t.objs[x].kind == Folder
    ensures r.Success? ==> r.value.1 == CloneId(t, x) && r.value.1 !in t.objs
    ensures r.Success? ==> r.value.0 == CopyTree(t, x, dest, CopyTitle(t, x, destTitle))
    ensures r.Success? ==> forall y {:trigger r.value.0.objs[y]} :: y in t.objs ==> y in r.value.0.objs && r.value.0.objs[y] == t.objs[y]
    ensures r.Success? ==> forall y {:trigger CloneId(t, y)} :: y in Subtree(t, x) ==> CloneId(t, y) in r.value.0.objs
    ensures r.Success? ==> forall z {:trigger Original(t, z)} :: z in r.value.0.objs && z >= t.next ==> Original(t, z) in Subtree(t, x)
    ensures r.Success? ==> forall y {:trigger CloneId(t, y)} :: y in Subtree(t, x) ==>
              r.value.0.objs[CloneId(t, y)] == CloneOf(t, x, dest, CopyTitle(t, x, destTitle), y)
  {
    var title := CopyTitle(t, x, destTitle);
    if dest in Subtree(t, x) && t.objs[x].kind == Folder then Failure(RecursionError)
    else if TitleTaken(t, dest, title) then Failure(IntegrityError)
    else
      Success((CopyTree(t, x, dest, title), CloneId(t, x)))
  }

  /** The tree after a copy: the old objects plus the clones of the subtree of `x`. */
  function CopyTree(t: Tree, x: Id, dest: Id, title: string): Tree {
    Tree(t.objs + Clones(t, Subtree(t, x), x, dest, title), 2 * t.next, 2 * t.bound + 1)
  }

  /** The clones of the objects of `sub`, keyed by their fresh ids. */
  function Clones(t: Tree, sub: set<Id>, x: Id, dest: Id, title: string): (m: map<Id, Obj>)
    ensures forall z :: z in m ==> z >= t.next
    ensures forall z {:trigger Original(t, z)} :: z in m && z >= t.next ==> Original(t, z) in sub
    ensures forall y {:trigger CloneId(t, y)} :: y in sub && y in t.objs ==> CloneId(t, y) in m && m[CloneId(t, y)] == CloneOf(t, x, dest, title, y)
  {
    map y | y in sub && y in t.objs :: CloneId(t, y) := CloneOf(t, x, dest, title, y)
  }

  /** The object a clone id was made from. */
  function Original(t: Tree, z: Id): (y: Id)
    requires z >= t.next
    ensures CloneId(t, y) == z
  {
    z - t.next
  }

  /** The fresh id given to the clone of `y`. */
  function CloneId(t: Tree, y: Id): (c: Id)
    ensures c >= t.next && c - t.next == y
  {
    t.next + y
  }

  /** `t2` holds the objects of `t` and, for every object of the subtree of `x`, a clone
      whose parent is the clone of the original's parent (`dest` for the top). */
  ghost predicate ClonesLinked(t: Tree, t2: Tree, x: Id, dest: Id) {
    (forall z :: z in t.objs ==> z in t2.objs && t2.objs[z] == t.objs[z])
    && CloneId(t, x) in t2.objs && t2.objs[CloneId(t, x)].parent == Some(dest)
    && (forall y, p :: y in Subtree(t, x) && y != x && t.objs[y].parent == Some(p) ==>
          CloneId(t, y) in t2.objs && t2.objs[CloneId(t, y)].parent == Some(CloneId(t, p)))
  }

  /** Every clone reaches a root: the clone of an object `k` steps below `x` reaches the
      destination folder after `k + 1` steps. */
  lemma {:induction false} CloneRooted(t: Tree, t2: Tree, x: Id, dest: Id, y: Id, k: nat)
    requires WellFormed(t) && Rooted(t, dest, t.bound) && ClonesLinked(t, t2, x, dest)
    requires Above(t, y, x, k)
    ensures Rooted(t2, CloneId(t, y), k + 1 + t.bound)
    decreases k
  {
    if y == x {
      ExtendKeepsRooted(t, t2, dest, t.bound);
      RootedMono(t2, dest, t.bound, k + t.bound);
    } else {
      var p := t.objs[y].parent.value;
      AboveFuel(t, y, x, t.bound, k);
      AboveFuel(t, p, x, t.bound, k - 1);
      CloneRooted(t, t2, x, dest, p, k - 1);
    }
  }

  /** What the well-formedness proof needs to know about a copy. */
  ghost predicate CopyShape(t: Tree, t2: Tree, x: Id, dest: Id, title: string)
    requires x in t.objs
  {
    ClonesLinked(t, t2, x, dest)
    && t2.next == 2 * t.next && t2.bound == 2 * t.bound + 1
    && (forall z :: z in t2.objs && z < t.next ==> z in t.objs)
    && (forall z {:trigger Original(t, z)} :: z in t2.objs && z >= t.next ==> Original(t, z) in Subtree(t, x))
    && (forall y {:trigger CloneId(t, y)} :: y in Subtree(t, x) ==>
          CloneId(t, y) in t2.objs && t2.objs[CloneId(t, y)] == CloneOf(t, x, dest, title, y))
  }

  lemma CopyTreeKeeps(t: Tree, x: Id, dest: Id, title: string)
    requires (forall y :: y in t.objs ==> y < t.next) && x in t.objs
    ensures var t2 := CopyTree(t, x, dest, title);
            (forall z :: z in t.objs ==> z in t2.objs && t2.objs[z] == t.objs[z])
            && (forall z :: z in t2.objs && z < t.next ==> z in t.objs)
  {
    var m := Clones(t, Subtree(t, x), x, dest, title);
    assert forall z :: z in t.objs ==> z !in m;
  }

  lemma CopyTreeClones(t: Tree, x: Id, dest: Id, title: string)
    requires (forall y :: y in t.objs ==> y < t.next) && x in t.objs
    ensures var t2 := CopyTree(t, x, dest, title);
            (forall y {:trigger CloneId(t, y)} :: y in Subtree(t, x) ==>
               CloneId(t, y) in t2.objs && t2.objs[CloneId(t, y)] == CloneOf(t, x, dest, title, y))
            && (forall z {:trigger Original(t, z)} :: z in t2.objs && z >= t.next ==> Original(t, z) in Subtree(t, x))
  {
    var t2 := CopyTree(t, x, dest, title);
    var m := Clones(t, Subtree(t, x), x, dest, title);
    forall z | z in t2.objs && z >= t.next ensures Original(t, z) in Subtree(t, x) {
      assert z !in t.objs;
      assert z in m;
    }
  }

  /** A clone stored under its fresh id hangs under the clone of the original's parent. */
  lemma CloneLink(t: Tree, t2: Tree, x: Id, dest: Id, title: string, y: Id, p: Id)
    requires y in t.objs && y != x && t.objs[y].parent == Some(p)
    requires CloneId(t, y) in t2.objs && t2.objs[CloneId(t, y)] == CloneOf(t, x, dest, title, y)
    ensures t2.objs[CloneId(t, y)].parent == Some(CloneId(t, p))
  {
  }

  lemma CopyTreeShape(t: Tree, x: Id, dest: Id, title: string)
    requires (forall y :: y in t.objs ==> y < t.next) && x in t.objs
    ensures CopyShape(t, CopyTree(t, x, dest, title), x, dest, title)
  {
    var t2 := CopyTree(t, x, dest, title);
    CopyTreeKeeps(t, x, dest, title);
    CopyTreeClones(t, x, dest, title);
    assert x in Subtree(t, x);
    forall y, p | y in Subtree(t, x) && y != x && t.objs[y].parent == Some(p)
      ensures CloneId(t, y) in t2.objs && t2.objs[CloneId(t, y)].parent == Some(CloneId(t, p))
    {
      CloneLink(t, t2, x, dest, title, y, p);
    }
  }

  lemma {:induction false} CopyRooted(t: Tree, t2: Tree, x: Id, dest: Id, title: string)
    requires WellFormed(t) && x in t.objs && IsFolder(t, dest) && CopyShape(t, t2, x, dest, title)
    ensures forall z :: z in t2.objs ==> z < t2.next && Rooted(t2, z, t2.bound)
  {
    forall z | z in t2.objs ensures z < t2.next && Rooted(t2, z, t2.bound) {
      if z < t.next {
        assert z in t.objs;
        ExtendKeepsRooted(t, t2, z, t.bound);
        RootedMono(t2, z, t.bound, t2.bound);
      } else {
        var y := Original(t, z);
        CloneRooted(t, t2, x, dest, y, t.bound);
      }
    }
  }

  lemma CopyParentsAreFolders(t: Tree, t2: Tree, x: Id, dest: Id, title: string)
    requires WellFormed(t) && x in t.objs && IsFolder(t, dest) && CopyShape(t, t2, x, dest, title)
    ensures forall z :: z in t2.objs && t2.objs[z].parent.Some? ==>
              IsFolder(t2, t2.objs[z].parent.value) && t2.objs[z].title == t2.objs[z].name
  {
    forall z | z in t2.objs && t2.objs[z].parent.Some?
      ensures IsFolder(t2, t2.objs[z].parent.value) && t2.objs[z].title == t2.objs[z].name
    {
      if z >= t.next {
        var y := Original(t, z);
        if y != x {
          var p := t.objs[y].parent.value;
          AboveFuel(t, p, x, t.bound, t.bound - 1);
          assert CloneId(t, p) == t.next + p;
        }
      }
    }
  }

  /** Every object of a copy keeps its title equal to its name. */
  lemma CopyTitlesAreNames(t: Tree, t2: Tree, x: Id, dest: Id, title: string)
    requires WellFormed(t) && x in t.objs && CopyShape(t, t2, x, dest, title)
    ensures forall z :: z in t2.objs ==> t2.objs[z].title == t2.objs[z].name
  {
    forall z | z in t2.objs ensures t2.objs[z].title == t2.objs[z].name {
      if z >= t.next {
        var y := Original(t, z);
        assert t2.objs[z] == CloneOf(t, x, dest, title, y);
      }
    }
  }

  /** Two siblings after a copy have different titles: old objects keep their siblings, the
      top clone's title is free under `dest`, and deeper clones mirror sibling originals. */
  lemma CloneSiblings(t: Tree, t2: Tree, x: Id, dest: Id, title: string, a: Id, b: Id)
    requires WellFormed(t) && x in t.objs && IsFolder(t, dest) && CopyShape(t, t2, x, dest, title)
    requires !TitleTaken(t, dest, title)
    requires a in t2.objs && b in t2.objs && a != b && t2.objs[a].parent.Some? && t2.objs[a].parent == t2.objs[b].parent
    requires a < t.next || b >= t.next
    ensures t2.objs[a].title != t2.objs[b].title
  {
    if a >= t.next {
      var ya := Original(t, a);
      var yb := Original(t, b);
      if ya != x && yb != x {
        assert t.objs[ya].parent == t.objs[yb].parent;
      }
    } else if b >= t.next {
      var yb := Original(t, b);
    }
  }

  lemma CopyUniqueTitles(t: Tree, t2: Tree, x: Id, dest: Id, title: string)
    requires WellFormed(t) && x in t.objs && IsFolder(t, dest) && CopyShape(t, t2, x, dest, title)
    requires !TitleTaken(t, dest, title)
    ensures UniqueTitles(t2)
  {
    forall a, b | a in t2.objs && b in t2.objs && a != b && t2.objs[a].parent.Some? && t2.objs[a].parent == t2.objs[b].parent
      ensures t2.objs[a].title != t2.objs[b].title
    {
      if a < t.next || b >= t.next {
        CloneSiblings(t, t2, x, dest, title, a, b);
      } else {
        CloneSiblings(t, t2, x, dest, title, b, a);
      }
    }
  }

  /** A successful copy keeps the tree well formed. */
  lemma CopyObjectWellFormed(t: Tree, x: Id, dest: Id, destTitle: Option<string>)
    requires WellFormed(t) && x in t.objs && IsFolder(t, dest) && CopyObject(t, x, dest, destTitle).Success?
    ensures WellFormed(CopyObject(t, x, dest, destTitle).value.0)
  {
    var title := CopyTitle(t, x, destTitle);
    assert !TitleTaken(t, dest, title);
    CopyTreeWellFormed(t, x, dest, title);
  }

  /** Cloning a subtree under a folder where its title is free keeps the tree well formed. */
  lemma CopyTreeWellFormed(t: Tree, x: Id, dest: Id, title: string)
    requires WellFormed(t) && x in t.objs && IsFolder(t, dest) && !TitleTaken(t, dest, title)
    ensures WellFormed(CopyTree(t, x, dest, title))
  {
    CopyTreeShape(t, x, dest, title);
    ShapeWellFormed(t, CopyTree(t, x, dest, title), x, dest, title);
  }

  lemma ShapeWellFormed(t: Tree, t2: Tree, x: Id, dest: Id, title: string)
    requires WellFormed(t) && x in t.objs && IsFolder(t, dest) && !TitleTaken(t, dest, title)
    requires CopyShape(t, t2, x, dest, title)
    ensures WellFormed(t2)
  {
    CopyRooted(t, t2, x, dest, title);
    CopyParentsAreFolders(t, t2, x, dest, title);
    CopyTitlesAreNames(t, t2, x, dest, title);
    CopyUniqueTitles(t, t2, x, dest, title);
  }

  /** The clone's title: `dest_title` when given and non-empty, else the original's. */
  function CopyTitle(t: Tree, x: Id, destTitle: Option<string>): (r: string)
    requires x in t.objs
    ensures destTitle.Some? && destTitle.value != "" ==> r == destTitle.value
    ensures destTitle.None? || destTitle.value == "" ==> r == t.objs[x].title
  {
    if destTitle.Some? && destTitle.value != "" then destTitle.value else t.objs[x].title
  }

  // ---------------------------------------------------------------------------
  // Access
  // ---------------------------------------------------------------------------

  /** `has_access`: walking up while the current object has a parent, READ must hold on each
      object met; the parentless root itself is not checked. `readable` is the security
      service's READ permission for the user, inherited permissions included. */
  function HasAccess(t: Tree, readable: Id -> bool, x: Id, fuel: nat): bool
    decreases fuel
  {
    if x !in t.objs then true
    else match t.objs[x].parent
      case None => true
      case Some(p) => readable(x) && (fuel == 0 || HasAccess(t, readable, p, fuel - 1))
  }

  /** READ holds on every element of a chain but the last (the root). */
  predicate ReadableBelowRoot(readable: Id -> bool, c: seq<Id>) {
    forall i :: 0 <= i < |c| - 1 ==> readable(c[i])
  }

  /** Access holds iff READ holds on the object and every ancestor except the root at the top
      of the chain. */
  lemma {:induction false} HasAccessChain(t: Tree, readable: Id -> bool, x: Id, n: nat)
    requires Rooted(t, x, n)
    ensures HasAccess(t, readable, x, n) <==> ReadableBelowRoot(readable, Chain(t, x, n))
    decreases n
  {
    match t.objs[x].parent
    case None =>
    case Some(p) =>
      HasAccessChain(t, readable, p, n - 1);
      var c := Chain(t, x, n);
      var cp := Chain(t, p, n - 1);
      assert c == [x] + cp;
      assert |cp| >= 1;
      if ReadableBelowRoot(readable, c) {
        assert readable(c[0]);
        forall i | 0 <= i < |cp| - 1 ensures readable(cp[i]) {
          assert cp[i] == c[i + 1];
        }
      }
      if readable(x) && ReadableBelowRoot(readable, cp) {
        forall i | 0 <= i < |c| - 1 ensures readable(c[i]) {
          if i > 0 { assert c[i] == cp[i - 1]; }
        }
      }
  }

  /** `is_locked` and `can_unlock` are placeholders: nothing is ever locked at this level
      and everything may be unlocked. */
  function IsLocked(t: Tree, x: Id): (r: bool)
    ensures !r
  {
    false
  }

  function CanUnlock(t: Tree, x: Id): (r: bool)
    ensures r
  {
    true
  }
}
