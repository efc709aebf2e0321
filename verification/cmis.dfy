/** The CMIS AtomPub binding (documents/cmis/atompub.py): option parsing, object lookup,
    the content-stream and delete handlers, and the type dispatch. The XML rendering and
    parsing are not modelled: a handler's answer is the object it would render and the
    status it sets. Media types follow section 3.3 of the CMIS 1.0 specification. */
module Cmis {
  import opened Wrappers
  import opened Text
  import opened DocTree
  import opened Repository
  import opened DocContent

  const MimeTypeAtomFeed: string := "application/atom+xml;type=feed"
  const MimeTypeAtomEntry: string := "application/atom+xml;type=entry"
  const MimeTypeAtomService: string := "application/atomsvc+xml"

  /** `BOOLEAN_OPTIONS`, in the order they are read. */
  const BooleanOptions: seq<string> := ["includeAllowableActions", "includeACL", "includePolicyIds"]

  /** The exceptions the handlers let escape. */
  datatype CmisError =
    | NotFound
    | UnexpectedParameter(key: string)   // get_options' bare Exception
    | NotImplemented
    | UnknownObjectType(objectType: string)
    | TypeError                          // "... called on " + None
    | AttributeError                     // reading `content` of a document without a blob
    | Repo(e: RepoError)

  /** Query arguments. */
  type Args = map<string, string>

  function Get(args: Args, k: string, default: string): string {
    if k in args then args[k] else default
  }

  // ---------------------------------------------------------------------------
  // get_options
  // ---------------------------------------------------------------------------

  /** The text of one option after stripping; a missing option reads as "false", which
      stripping leaves alone. */
  function OptionText(args: Args, k: string): string {
    if k in args then Strip(args[k]) else "false"
  }

  /** `OptionText` is `args.get(k, "false").strip()`. */
  lemma OptionTextIsStrip(args: Args, k: string)
    ensures OptionText(args, k) == Strip(Get(args, k, "false"))
  {
    if k !in args {
      var f := "false";
      assert !IsSpace(f[0]) && !IsSpace(f[|f| - 1]);
      StripTrimmed(f);
    }
  }

  /** An option text `get_options` accepts. */
  predicate ValidOption(args: Args, k: string) {
    var v := OptionText(args, k);
    v == "true" || v == "false" || v == ""
  }

  /** One option: "true" is True, "false" and "" are False, anything else raises. */
  function OptionValue(args: Args, k: string): (r: Result<bool, CmisError>)
    ensures r.Success? <==> ValidOption(args, k)
    ensures r.Success? ==> (r.value <==> OptionText(args, k) == "true")
    ensures r.Failure? ==> r.error == UnexpectedParameter(k)
  {
    var v := OptionText(args, k);
    if v == "true" then Success(true)
    else if v == "false" || v == "" then Success(false)
    else Failure(UnexpectedParameter(k))
  }

  /** The three booleans `get_options` returns, one per entry of `BOOLEAN_OPTIONS`. */
  datatype Options = Options(allowableActions: bool, acl: bool, policyIds: bool)

  /** `get_options`: the entries of `BOOLEAN_OPTIONS` are read in order, and the first invalid
      one raises; an option is True exactly when its text is "true". */
  function GetOptions(args: Args): (r: Result<Options, CmisError>)
    ensures r.Success? <==> forall i :: 0 <= i < |BooleanOptions| ==> ValidOption(args, BooleanOptions[i])
    ensures r.Success? ==> (r.value.allowableActions <==> OptionText(args, BooleanOptions[0]) == "true")
    ensures r.Success? ==> (r.value.acl <==> OptionText(args, BooleanOptions[1]) == "true")
    ensures r.Success? ==> (r.value.policyIds <==> OptionText(args, BooleanOptions[2]) == "true")
    ensures !ValidOption(args, BooleanOptions[0]) ==> r == Failure(UnexpectedParameter(BooleanOptions[0]))
    ensures ValidOption(args, BooleanOptions[0]) && !ValidOption(args, BooleanOptions[1]) ==>
              r == Failure(UnexpectedParameter(BooleanOptions[1]))
    ensures (ValidOption(args, BooleanOptions[0]) && ValidOption(args, BooleanOptions[1])
             && !ValidOption(args, BooleanOptions[2])) ==> r == Failure(UnexpectedParameter(BooleanOptions[2]))
  {
    var v0 :- OptionValue(args, BooleanOptions[0]);
    var v1 :- OptionValue(args, BooleanOptions[1]);
    var v2 :- OptionValue(args, BooleanOptions[2]);
    Success(Options(v0, v1, v2))
  }

  /** With no option given at all, every option is False. */
  lemma NoOptionsAllFalse(args: Args)
    requires forall k :: k in BooleanOptions ==> k !in args
    ensures GetOptions(args).Success?
    ensures GetOptions(args).value == Options(false, false, false)
  {
  }

  // ---------------------------------------------------------------------------
  // Object lookup
  // ---------------------------------------------------------------------------

  /** An id from the query string, as the database lookup reads it: digits name an id,
      anything else finds nothing. */
  function IdArg(id: Option<string>): (r: Option<Id>)
    ensures id.None? ==> r.None?
    ensures id.Some? ==> r == ParseNat(id.value)
  {
    if id.None? then None else ParseNat(id.value)
  }

  /** `get_object(id)`: NotFound when nothing has that id. */
  function GetObject(t: Tree, id: Option<string>): (r: Result<Id, CmisError>)
    ensures r.Success? <==> IdArg(id).Some? && IdArg(id).value in t.objs
    ensures r.Success? ==> r.value == IdArg(id).value
    ensures r.Failure? ==> r.error == NotFound
  {
    match IdArg(id)
    case None => Failure(NotFound)
    case Some(x) => if x in t.objs then Success(x) else Failure(NotFound)
  }

  /** `get_document(id)`: NotFound unless the id names a document. */
  function GetDocument(t: Tree, id: Option<string>): (r: Result<Id, CmisError>)
    ensures r.Success? <==> IdArg(id).Some? && IsDocument(t, IdArg(id).value)
    ensures r.Success? ==> r.value == IdArg(id).value
    ensures r.Failure? ==> r.error == NotFound
  {
    match IdArg(id)
    case None => Failure(NotFound)
    case Some(x) => if IsDocument(t, x) then Success(x) else Failure(NotFound)
  }

  /** `get_folder(id)`: NotFound unless the id names a folder. */
  function GetFolder(t: Tree, id: Option<string>): (r: Result<Id, CmisError>)
    ensures r.Success? <==> IdArg(id).Some? && IsFolder(t, IdArg(id).value)
    ensures r.Success? ==> r.value == IdArg(id).value
    ensures r.Failure? ==> r.error == NotFound
  {
    match IdArg(id)
    case None => Failure(NotFound)
    case Some(x) => if IsFolder(t, x) then Success(x) else Failure(NotFound)
  }

  /** A query argument counts only when present and non-empty. */
  predicate Truthy(v: Option<string>) {
    v.Some? && v.value != ""
  }

  function Arg(args: Args, k: string): Option<string> {
    if k in args then Some(args[k]) else None
  }

  /** `getObject`: the options are read first; then a non-empty id is looked up by id, else a
      non-empty path by path, else NotFound; finding nothing is NotFound too. */
  function GetObjectEntry(t: Tree, args: Args): (r: Result<(Id, Options), CmisError>)
    requires WellFormed(t)
    ensures GetOptions(args).Failure? ==> r == Failure(GetOptions(args).error)
    ensures GetOptions(args).Success? && !Truthy(Arg(args, "id")) && !Truthy(Arg(args, "path")) ==> r == Failure(NotFound)
    ensures GetOptions(args).Success? && Truthy(Arg(args, "id")) ==>
              r == (match GetObject(t, Arg(args, "id"))
                    case Success(x) => Success((x, GetOptions(args).value))
                    case Failure(e) => Failure(e))
    ensures GetOptions(args).Success? && !Truthy(Arg(args, "id")) && Truthy(Arg(args, "path")) ==>
              (r.Success? <==> GetObjectByPathFromRoot(t, args["path"]).Success?
                               && GetObjectByPathFromRoot(t, args["path"]).value.Some?)
              && (r.Success? ==> GetObjectByPathFromRoot(t, args["path"]) == Success(Some(r.value.0)))
    ensures r.Success? ==> r.value.1 == GetOptions(args).value
  {
    var options :- GetOptions(args);
    var id := Arg(args, "id");
    var path := Arg(args, "path");
    if Truthy(id) then
      var x :- GetObject(t, id);
      Success((x, options))
    else if Truthy(path) then
      match GetObjectByPathFromRoot(t, path.value)
      case Failure(e) => Failure(Repo(e))
      case Success(None) => Failure(NotFound)
      case Success(Some(x)) => Success((x, options))
    else Failure(NotFound)
  }

  /** In the path branch the source's lookup, as written, raises (StopIteration or
      AttributeError) where this handler answers NotFound for a path that finds nothing. */
  lemma GetObjectEntryPathAsWritten(t: Tree, args: Args)
    requires WellFormed(t) && RootFolder(t).Some?
    requires GetOptions(args).Success? && !Truthy(Arg(args, "id")) && Truthy(Arg(args, "path"))
    ensures GetObjectEntry(t, args) == Failure(NotFound) <==>
              SegmentRaised(GetObjectByPathAsWritten(t, RootFolder(t).value, args["path"]))
  {
    FromRootAsWritten(t, args["path"]);
  }

  /** The id wins over the path: with a non-empty id, the path plays no part. */
  lemma IdBeforePath(t: Tree, args: Args, path: string)
    requires WellFormed(t) && Truthy(Arg(args, "id"))
    ensures GetObjectEntry(t, args) == GetObjectEntry(t, args["path" := path])
  {
    assert Arg(args["path" := path], "id") == Arg(args, "id");
    assert forall k :: k in BooleanOptions ==> Get(args["path" := path], k, "false") == Get(args, k, "false");
    GetOptionsSame(args, args["path" := path]);
  }

  /** Option parsing only looks at the option keys. */
  lemma GetOptionsSame(a: Args, b: Args)
    requires forall k :: k in BooleanOptions ==> Get(a, k, "false") == Get(b, k, "false")
    ensures GetOptions(a) == GetOptions(b)
  {
    var ks := BooleanOptions;
    assert ks[0] in ks && ks[1] in ks && ks[2] in ks;
    OptionSame(a, b, ks[0]);
    OptionSame(a, b, ks[1]);
    OptionSame(a, b, ks[2]);
  }

  lemma OptionSame(a: Args, b: Args, k: string)
    requires Get(a, k, "false") == Get(b, k, "false")
    ensures OptionValue(a, k) == OptionValue(b, k)
  {
    OptionTextIsStrip(a, k);
    OptionTextIsStrip(b, k);
  }

  // ---------------------------------------------------------------------------
  // deleteObject
  // ---------------------------------------------------------------------------

  /** `deleteObject`: NotFound for an unknown id; otherwise the object and its subtree are
      deleted through the session and the answer is 204. */
  function DeleteEntry(t: Tree, id: Option<string>): (r: Result<Tree, CmisError>)
    ensures r.Failure? <==> GetObject(t, id).Failure?
    ensures r.Success? ==> r.value == RemoveSubtree(t, GetObject(t, id).value)
  {
    var x :- GetObject(t, id);
    Success(RemoveSubtree(t, x))
  }

  /** The objects whose parent is `p`. */
  function ChildSet(t: Tree, p: Id): set<Id> {
    set y | y in t.objs && t.objs[y].parent == Some(p)
  }

  /** `children` lists each child once, so its length is the number of children. */
  lemma ChildCount(t: Tree, p: Id)
    requires WellFormed(t)
    ensures |Children(t, p)| == |ChildSet(t, p)|
  {
    var c := Children(t, p);
    var sf := Subfolders(t, p);
    var ds := Documents(t, p);
    forall a, b | 0 <= a < b < |c| ensures c[a] != c[b] {
      if b < |sf| {
        assert c[a] == sf[a] && c[b] == sf[b];
      } else if a >= |sf| {
        assert c[a] == ds[a - |sf|] && c[b] == ds[b - |sf|];
      } else {
        assert c[a] in sf && c[b] in ds;
      }
    }
    DistinctCard(c);
    assert Elems(c) == ChildSet(t, p);
  }

  /** The assertion in `deleteObject` holds: deleting a non-root object takes exactly one
      child away from its parent. */
  lemma DeleteEntryChildCount(t: Tree, id: Option<string>)
    requires WellFormed(t)
    ensures var r := DeleteEntry(t, id);
            r.Success? && t.objs[GetObject(t, id).value].parent.Some? ==>
              var p := t.objs[GetObject(t, id).value].parent.value;
              WellFormed(r.value) && |Children(r.value, p)| == |Children(t, p)| - 1
  {
    var r := DeleteEntry(t, id);
    if r.Success? && t.objs[GetObject(t, id).value].parent.Some? {
      RemoveChildCount(t, GetObject(t, id).value);
    }
  }

  /** Removing the subtree of a non-root object takes exactly one child from its parent. */
  lemma RemoveChildCount(t: Tree, x: Id)
    requires WellFormed(t) && x in t.objs && t.objs[x].parent.Some?
    ensures var r := RemoveSubtree(t, x);
            var p := t.objs[x].parent.value;
            WellFormed(r) && |Children(r, p)| == |Children(t, p)| - 1
  {
    var p := t.objs[x].parent.value;
    RemoveSubtreeIsDeleteObject(t, x);
    DeleteObjectWellFormed(t, x);
    var r := RemoveSubtree(t, x);
    assert DeleteObject(t, x).value == r;
    forall y | y in t.objs && t.objs[y].parent == Some(p) && y != x ensures y in r.objs {
      assert y in Children(t, p);
    }
    assert x !in r.objs;
    ChildSetRemove(t, r, p, x);
    ChildCount(t, p);
    ChildCount(r, p);
  }

  /** Removing one child, and nothing else with the same parent, shrinks the child set by one. */
  lemma ChildSetRemove(t: Tree, r: Tree, p: Id, x: Id)
    requires x in t.objs && t.objs[x].parent == Some(p) && x !in r.objs
    requires forall y :: y in r.objs ==> y in t.objs && r.objs[y] == t.objs[y]
    requires forall y :: y in t.objs && t.objs[y].parent == Some(p) && y != x ==> y in r.objs
    ensures |ChildSet(r, p)| == |ChildSet(t, p)| - 1
  {
    assert ChildSet(r, p) == ChildSet(t, p) - {x};
    assert x in ChildSet(t, p);
  }

  // ---------------------------------------------------------------------------
  // setContentStream
  // ---------------------------------------------------------------------------

  /** `document.content` as written: the blob's bytes, and an AttributeError when no blob
      is attached. */
  function ContentAsWritten(d: Doc): (r: Result<seq<Byte>, CmisError>)
    ensures r.Success? <==> d.blob.Some?
  {
    if d.blob.None? then Failure(CmisError.AttributeError) else Success(d.blob.value.value)
  }

  /** `setContentStream` as written: `created` is "content is None", but reading `content`
      raises when there is no blob, and a blob always holds bytes, so the 201 branch is
      never taken. */
  function SetContentStreamAsWritten(d: Doc, data: seq<Byte>, ct: string, newTaskId: string): (r: Result<(Doc, int), CmisError>)
    ensures d.blob.None? ==> r == Failure(CmisError.AttributeError)
    ensures d.blob.Some? ==> r.Success? && r.value.1 == 204
  {
    var _ :- ContentAsWritten(d);
    Success((SetContentBytes(d, data, newTaskId).(contentType := ct), 204))
  }

  /** A document that has never received content cannot get its first content stream
      through the handler: the request fails instead of answering 201. */
  lemma SetContentStreamFirstFails(d: Doc, data: seq<Byte>, ct: string, newTaskId: string)
    requires d.blob.None?
    ensures SetContentStreamAsWritten(d, data, ct, newTaskId).Failure?
  {
  }

  /** `setContentStream` as intended: 201 when the document had no content, 204 when it
      replaced some; either way the document then holds the new bytes and type. */
  function SetContentStream(d: Doc, data: seq<Byte>, ct: string, newTaskId: string): (r: (Doc, int))
    ensures r.1 == 201 <==> d.blob.None?
    ensures r.1 == 204 <==> d.blob.Some?
    ensures r.0.blob.Some? && r.0.blob.value.value == data && r.0.contentLength == |data|
    ensures r.0.contentType == ct && r.0.title == d.title
  {
    var created := d.blob.None?;
    (SetContentBytes(d, data, newTaskId).(contentType := ct), if created then 201 else 204)
  }

  /** Once a content stream is set, setting another one replaces it (204), and where the
      handler as written does not fail it answers exactly as intended. */
  lemma SetContentStreamSecondReplaces(d: Doc, data: seq<Byte>, data2: seq<Byte>, ct: string, ct2: string, id1: string, id2: string)
    ensures SetContentStream(SetContentStream(d, data, ct, id1).0, data2, ct2, id2).1 == 204
    ensures SetContentStreamAsWritten(d, data, ct, id1).Success? ==>
              SetContentStreamAsWritten(d, data, ct, id1).value == SetContentStream(d, data, ct, id1)
  {
  }

  // ---------------------------------------------------------------------------
  // Types and createObject
  // ---------------------------------------------------------------------------

  /** The base types `getTypeDefinition` knows. */
  datatype BaseType = DocumentType | FolderType | RelationshipType | PolicyType

  function TypeId(b: BaseType): string {
    match b
    case DocumentType => "cmis:document"
    case FolderType => "cmis:folder"
    case RelationshipType => "cmis:relationship"
    case PolicyType => "cmis:policy"
  }

  /** `getTypeDefinition`: the four base types; a missing id fails on the log line, any
      other id is NotImplementedError. */
  function GetTypeDefinition(typeId: Option<string>): (r: Result<BaseType, CmisError>)
    ensures typeId.None? ==> r == Failure(TypeError)
    ensures r.Success? ==> typeId == Some(TypeId(r.value))
    ensures typeId.Some? && (forall b: BaseType :: TypeId(b) != typeId.value) ==> r == Failure(NotImplemented)
  {
    if typeId.None? then Failure(TypeError)
    else if typeId.value == "cmis:document" then Success(DocumentType)
    else if typeId.value == "cmis:folder" then Success(FolderType)
    else if typeId.value == "cmis:relationship" then Success(RelationshipType)
    else if typeId.value == "cmis:policy" then Success(PolicyType)
    else Failure(NotImplemented)
  }

  /** Every base type's definition is served. */
  lemma TypeDefinitionRoundTrip(b: BaseType)
    ensures GetTypeDefinition(Some(TypeId(b))) == Success(b)
  {
  }

  /** `createObject`: the parent must be a folder; "cmis:folder" creates a subfolder and
      "cmis:document" a document (the entry's content, if any, is not part of the tree);
      any other type raises. The answer is 201. */
  function CreateObject(t: Tree, id: Option<string>, objectType: string, name: string): (r: Result<(Tree, Id), CmisError>)
    requires forall y :: y in t.objs ==> y < t.next
    ensures id.None? ==> r == Failure(TypeError)
    ensures r.Success? ==> GetFolder(t, id).Success? && objectType in {"cmis:folder", "cmis:document"}
    ensures r.Success? ==>
              var k := if objectType == "cmis:folder" then Folder else Document;
              CreateChild(t, GetFolder(t, id).value, k, name) == Success(r.value)
    ensures GetFolder(t, id).Success? && objectType !in {"cmis:folder", "cmis:document"} ==>
              r == Failure(UnknownObjectType(objectType))
  {
    if id.None? then Failure(TypeError)
    else
      var f :- GetFolder(t, id);
      if objectType == "cmis:folder" || objectType == "cmis:document" then
        var k := if objectType == "cmis:folder" then Folder else Document;
        match CreateChild(t, f, k, name)
        case Failure(e) => Failure(Repo(e))
        case Success(c) => Success(c)
      else Failure(UnknownObjectType(objectType))
  }

  /** Only two of the four defined base types can be instantiated, and what is created
      carries the requested type. */
  lemma CreatableTypes(t: Tree, id: Option<string>, b: BaseType, name: string)
    requires forall y :: y in t.objs ==> y < t.next
    ensures var r := CreateObject(t, id, TypeId(b), name);
            r.Success? ==> (b == FolderType || b == DocumentType)
                           && r.value.0.objs[r.value.1].kind == (if b == FolderType then Folder else Document)
                           && SbeType(r.value.0.objs[r.value.1].kind) == TypeId(b)
  {
  }
}
