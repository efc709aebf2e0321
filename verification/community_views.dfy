/** The community views (communities/views/views.py, and the older communities/views.py):
    `default_view_kw`, the sort order of the community list, `members_post`, the helpers of
    the members spreadsheet export, and `seconds_since_epoch`.

    Request arguments, the form and the session are maps of strings; the user and membership
    tables are a set of user ids and a membership-id→user-id map. The `require_manage` and
    CSRF decorators of `members_post` are modelled in `CommunitySecurity` and left out here. */
module CommunityViews {
  import opened Wrappers
  import opened Text
  import opened Communities

  /** The two copies of the module: `views/views.py` (newer) and `views.py` (older). */
  datatype Variant = Newer | Older

  // ---------------------------------------------------------------------------
  // seconds_since_epoch
  // ---------------------------------------------------------------------------

  /** `seconds_since_epoch`: no datetime gives 0; otherwise the whole seconds since the epoch,
      truncated toward zero as `int()` truncates a float. A datetime is its microseconds since
      the epoch, in UTC. */
  function SecondsSinceEpoch(micros: Option<int>): (r: int)
    ensures micros.None? ==> r == 0
    ensures micros.Some? && micros.value >= 0 ==>
              0 <= r && r * 1000000 <= micros.value < (r + 1) * 1000000
    ensures micros.Some? && micros.value < 0 ==>
              r <= 0 && (r - 1) * 1000000 < micros.value <= r * 1000000
  {
    match micros
    case None => 0
    case Some(m) => if m >= 0 then m / 1000000 else -((-m) / 1000000)
  }

  // ---------------------------------------------------------------------------
  // default_view_kw
  // ---------------------------------------------------------------------------

  /** The `community` attribute of a model object: absent, None (reading its slug raises
      AttributeError, which is swallowed), or a community with a slug. */
  datatype CommunityAttr = NoAttribute | NoCommunity | InCommunity(slug: string)

  /** The object a default view shows: none, a search hit or dict (a mapping, falsy when
      empty), or a model object with a slug (communities) and a `community` attribute. */
  datatype ViewObj = NoObject | Mapping(fields: map<string, string>) | Model(slug: string, community: CommunityAttr)

  predicate Truthy(obj: ViewObj) {
    match obj
    case NoObject => false
    case Mapping(f) => |f| > 0
    case Model(_, _) => true
  }

  /** `mapping.get(key)`. */
  function Get(m: map<string, string>, key: string): (r: Option<string>)
    ensures r.Some? <==> key in m
    ensures r.Some? ==> r.value == m[key]
  {
    if key in m then Some(m[key]) else None
  }

  /** The community id `default_view_kw` settles on, if any. */
  function ResolveCommunityId(kwId: Option<string>, obj: ViewObj, isCommunity: bool): (r: Option<string>)
    ensures !isCommunity && kwId.Some? ==> r == kwId
    ensures !Truthy(obj) ==> r == kwId
    ensures isCommunity && obj.Model? ==> r == Some(obj.slug)
    ensures Truthy(obj) && obj.Mapping? && (isCommunity || kwId.None?) ==>
              r == Get(obj.fields, if isCommunity then "slug" else "community_slug")
    ensures !isCommunity && kwId.None? && obj.Model? ==>
              (r.Some? <==> obj.community.InCommunity?) && (r.Some? ==> r.value == obj.community.slug)
  {
    if (isCommunity || kwId.None?) && Truthy(obj) then
      match obj
      case Mapping(f) => Get(f, if isCommunity then "slug" else "community_slug")
      case Model(slug, attr) =>
        if isCommunity then Some(slug)
        else if attr.InCommunity? then Some(attr.slug)
        else kwId
    else kwId
  }

  datatype KwError = CannotFindCommunityId

  /** `default_view_kw`: the resolved community id is stored under "community_id"; when none
      is found the view cannot be built (ValueError "Cannot find community_id value"). */
  function DefaultViewKw(kw: map<string, string>, obj: ViewObj, isCommunity: bool): (r: Result<map<string, string>, KwError>)
    ensures var id := ResolveCommunityId(Get(kw, "community_id"), obj, isCommunity);
            (r.Failure? <==> id.None?)
            && (r.Success? ==> r.value == kw["community_id" := id.value])
  {
    match ResolveCommunityId(Get(kw, "community_id"), obj, isCommunity)
    case None => Failure(CannotFindCommunityId)
    case Some(id) => Success(kw["community_id" := id])
  }

  /** For a community, the slug overrides whatever id the keywords held; for any other object
      an id already present is kept as it is. */
  lemma DefaultViewKwCases(kw: map<string, string>, obj: ViewObj, isCommunity: bool)
    ensures isCommunity && obj.Model? ==> DefaultViewKw(kw, obj, true) == Success(kw["community_id" := obj.slug])
    ensures !isCommunity && "community_id" in kw ==> DefaultViewKw(kw, obj, false) == Success(kw)
    ensures !Truthy(obj) ==> (DefaultViewKw(kw, obj, isCommunity).Success? <==> "community_id" in kw)
  {
    if "community_id" in kw {
      assert kw["community_id" := kw["community_id"]] == kw;
    }
  }

  /** Feeding the keywords `default_view_kw` produced back to it changes nothing. */
  lemma DefaultViewKwIdempotent(kw: map<string, string>, obj: ViewObj, isCommunity: bool)
    ensures var r := DefaultViewKw(kw, obj, isCommunity);
            r.Success? ==> DefaultViewKw(r.value, obj, isCommunity) == r
  {
    var r := DefaultViewKw(kw, obj, isCommunity);
    if r.Success? {
      var id := ResolveCommunityId(Get(kw, "community_id"), obj, isCommunity);
      assert Get(r.value, "community_id") == id;
      assert r.value["community_id" := id.value] == r.value;
    }
  }

  // ---------------------------------------------------------------------------
  // index: the sort order
  // ---------------------------------------------------------------------------

  datatype Ordering = ByLastActivity | ByName

  /** The sort order of the community list: the stripped "sort" argument when not empty,
      otherwise the one stored in the session, otherwise "alpha". The order is stored back
      into the session; "activity" sorts by last activity, anything else by name. */
  function SortOrder(arg: Option<string>, session: Option<string>): (r: (string, Ordering))
    ensures arg.Some? && Strip(arg.value) != "" ==> r.0 == Strip(arg.value)
    ensures (arg.None? || Strip(arg.value) == "") && session.Some? ==> r.0 == session.value
    ensures (arg.None? || Strip(arg.value) == "") && session.None? ==> r.0 == "alpha"
    ensures r.1 == ByLastActivity <==> r.0 == "activity"
  {
    var requested := Strip(arg.GetOr(""));
    var order := if requested != "" then requested else session.GetOr("alpha");
    (order, if order == "activity" then ByLastActivity else ByName)
  }

  /** The order is sticky: a later visit without a "sort" argument sees the same order. */
  lemma SortOrderSticky(arg: Option<string>, session: Option<string>)
    ensures var r := SortOrder(arg, session);
            SortOrder(None, Some(r.0)) == r
  {
    assert Strip("") == "";
  }

  // ---------------------------------------------------------------------------
  // members_post
  // ---------------------------------------------------------------------------

  /** The redirect to the members page: with an error flash or not, and the activity
      ("join", "leave") that was sent. */
  datatype MembersReply = MembersReply(flashError: bool, activity: Option<string>)

  datatype MembersError =
    | BadRequest
    | InternalServerError
    | IntValueError          // int() of a form field
    | AttributeError         // a missing membership row, a missing user, or the older variant's missing role
    | AssertionError         // set_membership's `isinstance(user, User)` on a missing user
    | Membership(e: CommunityError)

  /** The form's `int()` fields. */
  function IntField(s: string): (r: Result<int, MembersError>)
    ensures r.Success? <==> PyInt(s).Some?
    ensures r.Success? ==> r.value == PyInt(s).value
    ensures r.Failure? ==> r.error == IntValueError
  {
    match PyInt(s)
    case None => Failure(IntValueError)
    case Some(n) => Success(n)
  }

  /** `members_post`: without a user the page is shown again with an error flash. Otherwise
      "add-user-role" and "set-user-role" set the membership to the lower-cased role ("add"
      also announces a "join"); "delete" removes the membership after checking that the
      membership row belongs to that user ("leave" is announced); any other action is a
      BadRequest. */
  function MembersPost(variant: Variant, c: Community, form: map<string, string>, users: set<UserId>,
                       membershipUser: map<int, UserId>): (r: Result<(Community, MembersReply), MembersError>)
    ensures "user" !in form || form["user"] == "" ==> r == Success((c, MembersReply(true, None)))
    ensures r.Success? && r.value.1.flashError ==> r.value.0 == c
    ensures r.Success? && !r.value.1.flashError ==>
              "user" in form && PyInt(form["user"]).Some? && PyInt(form["user"]).value >= 0
              && (Get(form, "action") == Some("add-user-role") || Get(form, "action") == Some("set-user-role")
                  || Get(form, "action") == Some("delete"))
              && (Get(form, "action") != Some("delete") ==> "role" in form)
    ensures r.Success? && !r.value.1.flashError ==>
              var uid := PyInt(form["user"]).value as nat;
              if Get(form, "action") == Some("delete") then RemoveMembership(c, uid) == Success(r.value.0)
              else
                var s := SetMembership(c, uid, RoleNamed(Lower(form["role"])));
                s.Success? && s.value.0 == r.value.0
    ensures r.Success? ==>
              (r.value.1.activity == Some("join") <==> !r.value.1.flashError && Get(form, "action") == Some("add-user-role"))
              && (r.value.1.activity == Some("leave") <==> !r.value.1.flashError && Get(form, "action") == Some("delete"))
  {
    var action := Get(form, "action");
    if "user" !in form || form["user"] == "" then Success((c, MembersReply(true, None)))
    else
      var uid :- IntField(form["user"]);
      var user := if uid >= 0 && uid as nat in users then Some(uid as nat) else None;
      if action == Some("add-user-role") || action == Some("set-user-role") then
        if "role" !in form then Failure(if variant == Newer then BadRequest else AttributeError)
        else if user.None? then Failure(AssertionError)
        else
          match SetMembership(c, user.value, RoleNamed(Lower(form["role"])))
          case Failure(e) => Failure(Membership(e))
          case Success((c2, _)) =>
            Success((c2, MembersReply(false, if action == Some("add-user-role") then Some("join") else None)))
      else if action == Some("delete") then
        if "membership" !in form then Failure(BadRequest)
        else
          var mid :- IntField(form["membership"]);
          if mid !in membershipUser then Failure(AttributeError)
          else if membershipUser[mid] != uid then Failure(InternalServerError)
          else if user.None? then Failure(AttributeError)
          else
            match RemoveMembership(c, user.value)
            case Failure(e) => Failure(Membership(e))
            case Success(c2) => Success((c2, MembersReply(false, Some("leave"))))
      else Failure(BadRequest)
  }

  /** A successful `members_post` keeps the member counter and the folder roles consistent. */
  lemma MembersPostInvariant(variant: Variant, c: Community, form: map<string, string>, users: set<UserId>,
                             membershipUser: map<int, UserId>)
    requires CountConsistent(c) && FolderInSync(c)
    ensures var r := MembersPost(variant, c, form, users, membershipUser);
            r.Success? ==> CountConsistent(r.value.0) && FolderInSync(r.value.0)
  {
    var r := MembersPost(variant, c, form, users, membershipUser);
    if r.Success? && !r.value.1.flashError {
      var uid := PyInt(form["user"]).value as nat;
      if Get(form, "action") == Some("delete") {
        RemoveMembershipInvariant(c, uid);
      } else {
        SetMembershipInvariant(c, uid, RoleNamed(Lower(form["role"])));
      }
    }
  }

  /** What a successful `members_post` did: add/set left the user a member with the posted
      role, delete left the user no member. */
  lemma MembersPostEffect(variant: Variant, c: Community, form: map<string, string>, users: set<UserId>,
                          membershipUser: map<int, UserId>)
    ensures var r := MembersPost(variant, c, form, users, membershipUser);
            r.Success? && !r.value.1.flashError ==>
              var uid := PyInt(form["user"]).value as nat;
              (Get(form, "action") == Some("delete") ==> !HasMember(r.value.0, uid))
              && (Get(form, "action") != Some("delete") ==>
                    GetRole(r.value.0, uid) == Some(RoleNamed(Lower(form["role"]))))
  {
  }

  /** A delete whose membership row belongs to another user is refused (500) whoever that
      user is, and the two variants differ only when the role field is missing. */
  lemma MembersPostGuards(c: Community, form: map<string, string>, users: set<UserId>, membershipUser: map<int, UserId>)
    ensures "user" in form && form["user"] != "" && PyInt(form["user"]).Some?
            && Get(form, "action") == Some("delete") && "membership" in form
            && PyInt(form["membership"]).Some? && PyInt(form["membership"]).value in membershipUser
            && membershipUser[PyInt(form["membership"]).value] != PyInt(form["user"]).value ==>
              MembersPost(Newer, c, form, users, membershipUser) == Failure(InternalServerError)
    ensures "role" in form ==>
              MembersPost(Newer, c, form, users, membershipUser) == MembersPost(Older, c, form, users, membershipUser)
  {
  }

  // ---------------------------------------------------------------------------
  // members_excel_export helpers
  // ---------------------------------------------------------------------------

  /** Excel's limit on a sheet title. */
  const MaxSheetTitle: nat := 31

  /** The suffix the older copy appends: U+2026 HORIZONTAL ELLIPSIS. */
  const Ellipsis: string := "\U{2026}"

  /** The suffix the newer copy appends: the UTF-8 bytes of U+2026 decoded as Windows-1252,
      three characters. */
  const MojibakeEllipsis: string := "\U{E2}\U{20AC}\U{A6}"

  /** The sheet-title rule with a given suffix: the stripped title, cut to 30 characters plus
      the suffix when longer than 31. */
  function CutTitle(title: string, suffix: string): (r: string)
    ensures var t := Strip(title);
            (|t| <= MaxSheetTitle ==> r == t)
            && (|t| > MaxSheetTitle ==> r == t[..30] + suffix)
  {
    var t := Strip(title);
    if |t| > MaxSheetTitle then t[..30] + suffix else t
  }

  /** The older copy's sheet title: never longer than 31 characters, and a title that fits is
      kept (once stripped). */
  function SheetTitle(title: string): (r: string)
    ensures |r| <= MaxSheetTitle
    ensures |Strip(title)| <= MaxSheetTitle <==> r == Strip(title)
    ensures |Strip(title)| > MaxSheetTitle ==> Strip(title)[..30] <= r
  {
    CutTitle(title, Ellipsis)
  }

  /** The newer copy's sheet title, as written with the mis-encoded suffix. */
  function SheetTitleAsWritten(title: string): (r: string)
    ensures |Strip(title)| > MaxSheetTitle ==> |r| == 33
    ensures |Strip(title)| <= MaxSheetTitle ==> r == SheetTitle(title)
  {
    CutTitle(title, MojibakeEllipsis)
  }

  /** A 32-character community title makes the newer copy produce a 33-character sheet title,
      over the limit its own comment states. */
  lemma SheetTitleAsWrittenTooLong()
    ensures var title := seq(32, i => 'x');
            |SheetTitleAsWritten(title)| == 33 > MaxSheetTitle
  {
    var title := seq(32, i => 'x');
    assert !IsSpace(title[0]) && !IsSpace(title[31]);
    StripTrimmed(title);
  }

  /** `MIN_WIDTH`. */
  const MinWidth: int := 3

  /** A column's width: at least `MIN_WIDTH` and at most `MAX_WIDTH`
      (`BASE_COL_WIDTH * 4`, a library constant passed in). */
  function ClampWidth(width: int, maxWidth: int): (r: int)
    requires maxWidth >= MinWidth
    ensures MinWidth <= r <= maxWidth
    ensures MinWidth <= width <= maxWidth ==> r == width
    ensures width < MinWidth ==> r == MinWidth
    ensures width > maxWidth ==> r == maxWidth
  {
    if width < MinWidth then MinWidth else if width > maxWidth then maxWidth else width
  }

  /** The longest of some lines. */
  function Longest(lines: seq<string>): (n: nat)
    ensures forall i :: 0 <= i < |lines| ==> |lines[i]| <= n
    ensures |lines| == 0 ==> n == 0
    ensures |lines| > 0 ==> exists i :: 0 <= i < |lines| && |lines[i]| == n
  {
    if |lines| == 0 then 0
    else
      var m := Longest(lines[1..]);
      if |lines[0]| >= m then |lines[0]|
      else assert |lines[1..][0]| <= m; m
  }

  /** The width estimate of one cell: its longest line plus one. */
  function CellWidth(value: string): (w: nat)
    ensures w >= 1
  {
    Longest(Split(value, '\n')) + 1
  }

  /** The estimated width of a column: the header's length plus one, raised to the width of
      every cell below it. */
  function ColumnWidth(header: string, cells: seq<string>): (w: nat)
    ensures w >= |header| + 1
    ensures forall i :: 0 <= i < |cells| ==> w >= CellWidth(cells[i])
    ensures w == |header| + 1 || exists i :: 0 <= i < |cells| && w == CellWidth(cells[i])
  {
    if |cells| == 0 then |header| + 1
    else
      var w0 := ColumnWidth(header, cells[..|cells| - 1]);
      var last := CellWidth(cells[|cells| - 1]);
      assert forall i :: 0 <= i < |cells| - 1 ==> cells[..|cells| - 1][i] == cells[i];
      if last > w0 then last else w0
  }

  /** A cell without a line break is as wide as its text plus one. */
  lemma CellWidthSingleLine(value: string)
    requires '\n' !in value
    ensures CellWidth(value) == |value| + 1
  {
    SplitJoin([value], '\n');
    assert Join([value], '\n') == value;
  }
}
