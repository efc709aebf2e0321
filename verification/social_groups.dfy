/** The group pages of the social application (social/views/groups.py): which groups a user
    sees, the member search behind `group_json`, the membership and administrator actions of
    `group_post`, and the size check of `group_mugshot`.

    The current user, whether they hold the site-wide admin role and the users known to the
    database are parameters; joining and leaving a group add the user to and remove them
    from its member set. */
module SocialGroups {
  import opened Wrappers
  import opened Text

  datatype Group = Group(id: nat, name: string, isPublic: bool, members: set<nat>,
                         admins: seq<Option<nat>>, photo: string)

  // ---------------------------------------------------------------------------
  // groups(): the "all_groups" tab
  // ---------------------------------------------------------------------------

  /** Whether a user sees a group: site admins see all of them, others the public ones and
      the ones they belong to. */
  predicate Visible(g: Group, user: nat, siteAdmin: bool) {
    siteAdmin || g.isPublic || user in g.members
  }

  /** The "all_groups" tab: the groups (in name order, as the query returns them), keeping
      for a non-admin only the visible ones. */
  function AllGroups(groups: seq<Group>, user: nat, siteAdmin: bool): (r: seq<Group>)
    ensures forall g :: g in r <==> g in groups && Visible(g, user, siteAdmin)
    ensures |r| <= |groups|
  {
    if |groups| == 0 then []
    else (if Visible(groups[0], user, siteAdmin) then [groups[0]] else []) + AllGroups(groups[1..], user, siteAdmin)
  }

  /** A site admin sees every group, in order. */
  lemma {:induction false} AllGroupsAdmin(groups: seq<Group>, user: nat)
    ensures AllGroups(groups, user, true) == groups
    decreases |groups|
  {
    if |groups| > 0 {
      AllGroupsAdmin(groups[1..], user);
      assert groups == [groups[0]] + groups[1..];
    }
  }

  /** `is_admin`: an administrator of the group, or a site admin. */
  predicate IsGroupAdmin(g: Group, user: nat, siteAdmin: bool) {
    Some(user) in g.admins || siteAdmin
  }

  // ---------------------------------------------------------------------------
  // group_json: member search
  // ---------------------------------------------------------------------------

  /** The length of the leading run of non-whitespace characters. */
  function WordLen(s: string): (n: nat)
    ensures n <= |s|
    ensures forall i :: 0 <= i < n ==> !IsSpace(s[i])
    ensures n < |s| ==> IsSpace(s[n])
    decreases |s|
  {
    if |s| > 0 && !IsSpace(s[0]) then 1 + WordLen(s[1..]) else 0
  }

  /** `str.split()` without arguments: the maximal runs of non-whitespace characters. */
  function Words(s: string): (r: seq<string>)
    decreases |s|
  {
    if |s| == 0 then []
    else if IsSpace(s[0]) then Words(s[1..])
    else
      var n := WordLen(s);
      [s[..n]] + Words(s[n..])
  }

  /** Whether one of the words starts with `q`. */
  predicate SomeWordStarts(words: seq<string>, q: string) {
    exists k :: 0 <= k < |words| && q <= words[k]
  }

  predicate NoSpace(q: string) {
    forall i :: 0 <= i < |q| ==> !IsSpace(q[i])
  }

  /** A word begins at `i`: a non-space character at the start or after a space. */
  predicate WordStart(s: string, i: int) {
    0 <= i < |s| && !IsSpace(s[i]) && (i == 0 || IsSpace(s[i - 1]))
  }

  predicate PrefixAt(q: string, s: string, i: int) {
    0 <= i && i + |q| <= |s| && s[i..i + |q|] == q
  }

  /** The reference for the search: some word of `s` starts with `q` exactly when `q`
      occurs in `s` at the beginning of a word (for a `q` without whitespace, which no word
      holds). */
  lemma {:induction false} WordsStartAt(s: string, q: string)
    requires |q| > 0 && NoSpace(q)
    ensures SomeWordStarts(Words(s), q) <==> exists i :: WordStart(s, i) && PrefixAt(q, s, i)
    decreases |s|
  {
    if |s| == 0 {
    } else if IsSpace(s[0]) {
      WordsStartAt(s[1..], q);
      ShiftStarts(s, 1, q);
      assert !WordStart(s, 0);
      if |s| > 1 {
        assert WordStart(s, 1) <==> WordStart(s[1..], 0);
      }
      if exists i :: WordStart(s, i) && PrefixAt(q, s, i) {
        var i :| WordStart(s, i) && PrefixAt(q, s, i);
        assert WordStart(s[1..], i - 1) && PrefixAt(q, s[1..], i - 1);
      }
      if exists j :: WordStart(s[1..], j) && PrefixAt(q, s[1..], j) {
        var j :| WordStart(s[1..], j) && PrefixAt(q, s[1..], j);
        assert WordStart(s, j + 1) && PrefixAt(q, s, j + 1);
      }
    } else {
      var n := WordLen(s);
      WordsStartAt(s[n..], q);
      FirstWord(s, n, q);
      WordsCons(s, n, q);
      StartsSplit(s, n, q);
    }
  }

  /** The words of a text starting with a word: that word, then the words of the rest. */
  lemma WordsCons(s: string, n: nat, q: string)
    requires |s| > 0 && !IsSpace(s[0]) && n == WordLen(s)
    ensures SomeWordStarts(Words(s), q) <==> q <= s[..n] || SomeWordStarts(Words(s[n..]), q)
  {
    var ws := Words(s);
    var rest := Words(s[n..]);
    assert ws == [s[..n]] + rest;
    if SomeWordStarts(rest, q) {
      var k :| 0 <= k < |rest| && q <= rest[k];
      assert ws[k + 1] == rest[k];
    }
    if SomeWordStarts(ws, q) {
      var k :| 0 <= k < |ws| && q <= ws[k];
      if k > 0 {
        assert ws[k] == rest[k - 1];
      }
    }
  }

  /** Where `q` can start a word of a text beginning with a word of length `n`: at 0, or at
      a word start of the rest (the space ending the first word cannot begin `q`). */
  lemma StartsSplit(s: string, n: nat, q: string)
    requires |q| > 0 && NoSpace(q)
    requires n == WordLen(s) && n > 0
    ensures (exists i :: WordStart(s, i) && PrefixAt(q, s, i))
            <==> PrefixAt(q, s, 0) || exists j :: WordStart(s[n..], j) && PrefixAt(q, s[n..], j)
  {
    ShiftStarts(s, n, q);
    if exists i :: WordStart(s, i) && PrefixAt(q, s, i) {
      var i :| WordStart(s, i) && PrefixAt(q, s, i);
      if i > 0 {
        assert i > n;
        assert WordStart(s[n..], i - n) && PrefixAt(q, s[n..], i - n);
      }
    }
    if exists j :: WordStart(s[n..], j) && PrefixAt(q, s[n..], j) {
      var j :| WordStart(s[n..], j) && PrefixAt(q, s[n..], j);
      assert j > 0;
      assert WordStart(s, n + j) && PrefixAt(q, s, n + j);
    }
    assert WordStart(s, 0);
  }

  /** Positions after `k` are word starts of `s` exactly when they are of `s[k..]`. */
  lemma ShiftStarts(s: string, k: nat, q: string)
    requires 0 < k <= |s|
    ensures forall i :: k < i < |s| ==> (WordStart(s, i) <==> WordStart(s[k..], i - k))
    ensures forall i :: k <= i ==> (PrefixAt(q, s, i) <==> PrefixAt(q, s[k..], i - k))
  {
    forall i | k <= i
      ensures PrefixAt(q, s, i) <==> PrefixAt(q, s[k..], i - k)
    {
      if i + |q| <= |s| {
        assert s[k..][i - k..i - k + |q|] == s[i..i + |q|];
      }
    }
  }

  /** The first word starts with `q` exactly when `q` is at position 0. */
  lemma FirstWord(s: string, n: nat, q: string)
    requires |q| > 0 && NoSpace(q)
    requires n == WordLen(s) && n > 0
    ensures q <= s[..n] <==> PrefixAt(q, s, 0)
  {
    if q <= s[..n] {
      assert s[..|q|] == s[..n][..|q|];
    }
  }

  /** A member row of `group_json`. */
  datatype Member = Member(id: nat, firstName: string, lastName: string, name: string)

  datatype JsonRow = JsonRow(id: nat, text: string)

  /** Whether a member matches the lowercased query: a word of the lowercased first or last
      name starts with it. */
  predicate Matches(m: Member, q: string) {
    SomeWordStarts(Words(Lower(m.firstName)), q) || SomeWordStarts(Words(Lower(m.lastName)), q)
  }

  function Rows(members: seq<Member>): (r: seq<JsonRow>)
    ensures |r| == |members|
    ensures forall i :: 0 <= i < |r| ==> r[i] == JsonRow(members[i].id, members[i].name)
  {
    if |members| == 0 then [] else [JsonRow(members[0].id, members[0].name)] + Rows(members[1..])
  }

  function MatchingRows(members: seq<Member>, q: string): (r: seq<JsonRow>)
    ensures forall row :: row in r <==> exists m :: m in members && Matches(m, q) && row == JsonRow(m.id, m.name)
  {
    if |members| == 0 then []
    else
      var m := members[0];
      var rest := MatchingRows(members[1..], q);
      assert forall x :: x in members <==> x == m || x in members[1..];
      (if Matches(m, q) then [JsonRow(m.id, m.name)] else []) + rest
  }

  /** `group_json`: every member without a query (or with an empty one), otherwise the
      members a word of whose first or last name starts with the lowercased query. */
  function GroupJson(members: seq<Member>, q: Option<string>): (r: seq<JsonRow>)
    ensures Lower(q.GetOr("")) == "" ==> r == Rows(members)
    ensures Lower(q.GetOr("")) != "" ==>
              forall row :: row in r <==> exists m :: m in members && Matches(m, Lower(q.value)) && row == JsonRow(m.id, m.name)
  {
    var ql := Lower(q.GetOr(""));
    if ql == "" then Rows(members) else MatchingRows(members, ql)
  }

  /** A query holding whitespace finds nobody, as no word holds any. */
  lemma {:induction false} SpacedQueryMatchesNothing(s: string, q: string, j: nat)
    requires j < |q| && IsSpace(q[j])
    ensures !SomeWordStarts(Words(s), q)
    decreases |s|
  {
    if |s| > 0 {
      if IsSpace(s[0]) {
        SpacedQueryMatchesNothing(s[1..], q, j);
      } else {
        var n := WordLen(s);
        SpacedQueryMatchesNothing(s[n..], q, j);
        var ws := Words(s);
        assert ws == [s[..n]] + Words(s[n..]);
        forall k | 1 <= k < |ws| ensures ws[k] == Words(s[n..])[k - 1] { }
      }
    }
  }

  // ---------------------------------------------------------------------------
  // group_post
  // ---------------------------------------------------------------------------

  datatype PostError =
    | NotGroupAdmin      // the `assert is_admin(group)`
    | UnknownAction      // "Should not happen"
    | NoSuchUser         // `None.join` / `None.leave`: no user has the id

  datatype Redirect = ToUrl(url: string) | ToGroupHome(groupId: nat)

  /** What the request leaves: the group, whether the "No user selected" error was
      flashed, and where the browser goes. */
  datatype PostOutcome = PostOutcome(group: Group, noUserFlash: bool, redirect: Redirect)

  predicate IsMembershipAction(action: string) {
    action == "add" || action == "remove" || action == "add-admin" || action == "remove-admin"
  }

  /** `list.remove`: the first occurrence goes. */
  function RemoveFirst<T(==)>(s: seq<T>, x: T): (r: seq<T>)
    requires x in s
    ensures multiset(r) == multiset(s) - multiset{x}
    ensures |r| == |s| - 1
  {
    assert s == [s[0]] + s[1..];
    if s[0] == x then s[1..]
    else
      [s[0]] + RemoveFirst(s[1..], x)
  }

  /** The change an action makes to the group for the user it acts on. */
  function Apply(g: Group, action: string, u: Option<nat>): (r: Result<Group, PostError>)
    requires action == "join" || action == "leave" || IsMembershipAction(action)
  {
    if action == "join" || action == "add" then
      if u.None? then Failure(NoSuchUser) else Success(g.(members := g.members + {u.value}))
    else if action == "leave" || action == "remove" then
      if u.None? then Failure(NoSuchUser) else Success(g.(members := g.members - {u.value}))
    else if action == "add-admin" then
      Success(if u !in g.admins then g.(admins := g.admins + [u]) else g)
    else
      Success(if u in g.admins then g.(admins := RemoveFirst(g.admins, u)) else g)
  }

  /** `group_post`. `user` is the current user, `siteAdmin` whether they hold the admin
      role, `known` the ids of existing users; `action`, `userField` and `returnUrl` are the
      form fields. */
  function GroupPost(g: Group, user: nat, siteAdmin: bool, known: set<nat>, action: Option<string>,
                     userField: Option<string>, returnUrl: Option<string>): (r: Result<PostOutcome, PostError>)
    ensures (action != Some("join") && action != Some("leave") && !IsGroupAdmin(g, user, siteAdmin))
              ==> r == Failure(NotGroupAdmin)
    ensures (action.Some? && IsMembershipAction(action.value) && IsGroupAdmin(g, user, siteAdmin)
             && PyInt(Strip(userField.GetOr(""))).None?)
              ==> r == Success(PostOutcome(g, true, ToGroupHome(g.id)))
    ensures r.Success? && !r.value.noUserFlash ==>
              r.value.redirect == (if returnUrl.Some? && returnUrl.value != "" then ToUrl(returnUrl.value)
                                   else ToGroupHome(g.id))
  {
    if action != Some("join") && action != Some("leave") && !IsGroupAdmin(g, user, siteAdmin) then
      Failure(NotGroupAdmin)
    else
      var target := if returnUrl.Some? && returnUrl.value != "" then ToUrl(returnUrl.value) else ToGroupHome(g.id);
      if action == Some("join") || action == Some("leave") then
        Success(PostOutcome(Apply(g, action.value, Some(user)).value, false, target))
      else if action.Some? && IsMembershipAction(action.value) then
        match PyInt(Strip(userField.GetOr("")))
        case None => Success(PostOutcome(g, true, ToGroupHome(g.id)))
        case Some(id) =>
          var u := if id >= 0 && id in known then Some(id as nat) else None;
          var g1 :- Apply(g, action.value, u);
          Success(PostOutcome(g1, false, target))
      else Failure(UnknownAction)
  }

  predicate NoDup<T(==)>(s: seq<T>) {
    forall i, j :: 0 <= i < j < |s| ==> s[i] != s[j]
  }

  /** The administrator list never gets a duplicate: adding one already there changes
      nothing, and removing takes the only occurrence away. */
  lemma AdminsStayDistinct(g: Group, action: string, u: Option<nat>)
    requires action == "join" || action == "leave" || IsMembershipAction(action)
    requires NoDup(g.admins)
    ensures Apply(g, action, u).Success? ==> NoDup(Apply(g, action, u).value.admins)
    ensures action == "add-admin" ==> u in Apply(g, action, u).value.admins
    ensures action == "remove-admin" ==> u !in Apply(g, action, u).value.admins
    ensures action == "remove-admin" && u in g.admins ==>
              multiset(Apply(g, action, u).value.admins) == multiset(g.admins) - multiset{u}
  {
    if action == "remove-admin" && u in g.admins {
      var r := RemoveFirst(g.admins, u);
      var i :| 0 <= i < |g.admins| && g.admins[i] == u;
      assert multiset(g.admins)[u] == 1 by { OnceInDistinct(g.admins, i); }
      assert multiset(r)[u] == 0;
      DistinctSub(g.admins, r, u);
    }
  }

  /** In a list without duplicates, an element occurs once. */
  lemma {:induction false} OnceInDistinct<T>(s: seq<T>, i: nat)
    requires NoDup(s) && i < |s|
    ensures multiset(s)[s[i]] == 1
    decreases |s|
  {
    assert s == [s[0]] + s[1..];
    if i == 0 {
      assert s[0] !in s[1..] by {
        forall j | 0 <= j < |s[1..]| ensures s[1..][j] != s[0] { assert s[1..][j] == s[j + 1]; }
      }
    } else {
      assert NoDup(s[1..]) by {
        forall a, b | 0 <= a < b < |s[1..]| ensures s[1..][a] != s[1..][b] {
          assert s[1..][a] == s[a + 1] && s[1..][b] == s[b + 1];
        }
      }
      OnceInDistinct(s[1..], i - 1);
      assert s[1..][i - 1] == s[i];
    }
  }

  /** Removing an element from a list without duplicates keeps it without duplicates. */
  lemma DistinctSub<T>(s: seq<T>, r: seq<T>, x: T)
    requires NoDup(s) && multiset(r) == multiset(s) - multiset{x}
    ensures NoDup(r)
  {
    forall i, j | 0 <= i < j < |r|
      ensures r[i] != r[j]
    {
      if r[i] == r[j] {
        var y := r[i];
        assert multiset(r)[y] >= 2 by { TwoOccurrences(r, i, j); }
        assert multiset(s)[y] >= 2;
        assert y in s;
        var k :| 0 <= k < |s| && s[k] == y;
        OnceInDistinct(s, k);
      }
    }
  }

  lemma TwoOccurrences<T>(s: seq<T>, i: nat, j: nat)
    requires i < j < |s| && s[i] == s[j]
    ensures multiset(s)[s[i]] >= 2
  {
    assert s == s[..j] + [s[j]] + s[j + 1..];
    assert s[i] in multiset(s[..j]) by { assert s[..j][i] == s[i]; }
  }

  /** Joining makes the group visible to the user, and leaving makes it invisible unless it
      is public (or the user is a site admin). */
  lemma JoinLeaveVisibility(g: Group, user: nat, siteAdmin: bool)
    ensures Visible(Apply(g, "join", Some(user)).value, user, siteAdmin)
    ensures Visible(Apply(g, "leave", Some(user)).value, user, siteAdmin) <==> siteAdmin || g.isPublic
  {
  }

  // ---------------------------------------------------------------------------
  // group_mugshot
  // ---------------------------------------------------------------------------

  datatype MugshotError = MugshotValueError | MugshotNotFound

  datatype Image = Image(fromPhoto: bool, data: string, resizedTo: Option<int>)

  /** `group_mugshot`: the size argument (55 when missing) must be an integer of at most
      500; a missing group is NotFound; the group's photo, or the default image when it has
      none, is cropped to size x size unless the size is 0. */
  function GroupMugshot(sizeArg: Option<string>, g: Option<Group>, defaultImage: string)
    : (r: Result<Image, MugshotError>)
    ensures (sizeArg.Some? && PyInt(sizeArg.value).None?) ==> r == Failure(MugshotValueError)
    ensures var size := if sizeArg.Some? then PyInt(sizeArg.value) else Some(55);
            size.Some? ==>
              (size.value > 500 ==> r == Failure(MugshotValueError))
              && (size.value <= 500 && g.None? ==> r == Failure(MugshotNotFound))
              && (size.value <= 500 && g.Some? ==>
                    r.Success? && r.value.fromPhoto == (g.value.photo != "")
                    && (r.value.resizedTo.None? <==> size.value == 0)
                    && (r.value.resizedTo.Some? ==> r.value.resizedTo.value == size.value))
  {
    var size := if sizeArg.Some? then PyInt(sizeArg.value) else Some(55);
    if size.None? || size.value > 500 then Failure(MugshotValueError)
    else if g.None? then Failure(MugshotNotFound)
    else
      var fromPhoto := g.value.photo != "";
      var data := if fromPhoto then g.value.photo else defaultImage;
      Success(Image(fromPhoto, data, if size.value != 0 then Some(size.value) else None))
  }
}
