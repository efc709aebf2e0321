/** Access checks for communities (communities/security.py, both variants): the
    `require_admin` and `require_manage` decorators, `check_access`/`has_access`, and the
    newer variant's `is_manager`.

    The request globals (`current_user`, `g.community`) are parameters, and the security
    service's global "admin" role is a set of user ids. The two variants compute the same
    decisions; they differ only in how they reach the service. */
module CommunitySecurity {
  import opened Wrappers
  import opened Communities

  /** The user a check is about: the anonymous user, or a logged-in one. */
  datatype User = Anonymous | Known(id: UserId)

  datatype AccessError = Forbidden | AttributeError

  predicate IsAdmin(u: User, admins: set<UserId>) {
    u.Known? && u.id in admins
  }

  /** `community.has_permission(user, permission)` for any user: the anonymous user is no
      admin and has no membership. */
  predicate UserHasPermission(c: Community, u: User, admins: set<UserId>, permission: string) {
    u.Known? && HasPermission(c, u.id, u.id in admins, permission)
  }

  /** `require_admin`: only admins get through. */
  function RequireAdmin(current: User, admins: set<UserId>): (r: Result<(), AccessError>)
    ensures r.Success? <==> IsAdmin(current, admins)
    ensures r.Failure? ==> r.error == Forbidden
  {
    if IsAdmin(current, admins) then Success(()) else Failure(Forbidden)
  }

  /** `require_manage`: the current community's "manage" permission lets the view run, and
      so does the admin role; everybody else is Forbidden. */
  function RequireManage(community: Option<Community>, current: User, admins: set<UserId>): (r: Result<(), AccessError>)
    ensures r.Failure? ==> r.error == Forbidden
  {
    if community.Some? && UserHasPermission(community.value, current, admins, "manage") then Success(())
    else if IsAdmin(current, admins) then Success(())
    else Failure(Forbidden)
  }

  /** Only admins and the community's managers pass `require_manage`; plain members do not. */
  lemma RequireManageIff(community: Option<Community>, current: User, admins: set<UserId>)
    ensures RequireManage(community, current, admins).Success? <==>
              IsAdmin(current, admins)
              || (community.Some? && current.Known? && GetRole(community.value, current.id) == Some(Manager))
  {
    assert "manage"[0] != "read"[0] && "manage"[0] != "write"[0];
  }

  /** `has_access`: a missing user is the current one and a missing community the one of the
      request. The anonymous user has no access, an admin has, and otherwise access is
      membership of the community; without a community there is none. */
  function HasAccess(community: Option<Community>, user: Option<User>, current: User,
                     requestCommunity: Option<Community>, admins: set<UserId>): (r: bool)
    ensures var u := user.GetOr(current);
            var c := if community.Some? then community else requestCommunity;
            (u.Anonymous? ==> !r)
            && (IsAdmin(u, admins) ==> r)
            && (u.Known? && u.id !in admins ==> (r <==> c.Some? && HasMember(c.value, u.id)))
  {
    var u := if user.Some? then user.value else current;
    if u.Anonymous? then false
    else if u.id in admins then true
    else
      var c := if community.Some? then community else requestCommunity;
      c.Some? && GetRole(c.value, u.id).Some?
  }

  /** `check_access`: Forbidden exactly when `has_access` says no. */
  function CheckAccess(community: Option<Community>, user: Option<User>, current: User,
                       requestCommunity: Option<Community>, admins: set<UserId>): (r: Result<(), AccessError>)
    ensures r.Failure? <==> !HasAccess(community, user, current, requestCommunity, admins)
    ensures r.Failure? ==> r.error == Forbidden
  {
    if HasAccess(community, user, current, requestCommunity, admins) then Success(()) else Failure(Forbidden)
  }

  /** Any community permission of a logged-in user implies access to the community. */
  lemma PermissionImpliesAccess(c: Community, u: UserId, admins: set<UserId>, p: string)
    requires HasPermission(c, u, u in admins, p)
    ensures HasAccess(Some(c), Some(Known(u)), Anonymous, None, admins)
  {
  }

  /** For a non-admin, access to a community whose folder is in sync is holding some managed
      role on the folder. */
  lemma AccessIsFolderRole(c: Community, u: UserId, admins: set<UserId>)
    requires FolderInSync(c) && c.folder.Some? && u !in admins
    ensures HasAccess(Some(c), Some(Known(u)), Anonymous, None, admins) <==>
              ManagedRoles(c.folder.value.grants, u) != {}
  {
    assert ManagedRoles(c.folder.value.grants, u) == Expected(c.memberships, c.participative, u);
  }

  /** `is_manager` (newer variant): the anonymous user is no manager. The community is the
      one of the context's object when a context is given, else the request's; a missing
      community is an AttributeError. Otherwise the "manage" permission, being the creator,
      or the admin role make a manager. */
  function IsManager(context: Option<Option<Community>>, user: Option<User>, current: User,
                     requestCommunity: Option<Community>, admins: set<UserId>): (r: Result<bool, AccessError>)
    ensures var u := user.GetOr(current);
            var c := if context.Some? then context.value else requestCommunity;
            (u.Anonymous? ==> r == Success(false))
            && (u.Known? && c.None? ==> r == Failure(AttributeError))
            && (u.Known? && c.Some? ==>
                  r == Success(u.id in admins || GetRole(c.value, u.id) == Some(Manager) || c.value.creator == Some(u.id)))
  {
    var u := if user.Some? then user.value else current;
    if u.Anonymous? then Success(false)
    else
      var c := if context.Some? then context.value else requestCommunity;
      if c.None? then Failure(AttributeError)
      else if UserHasPermission(c.value, u, admins, "manage") || c.value.creator == Some(u.id) then Success(true)
      else Success(u.id in admins)
  }

  /** Whoever passes `require_manage` on a community is a manager of it; the creator is a
      manager without passing it. */
  lemma RequireManageIsManager(c: Community, current: User, admins: set<UserId>)
    ensures RequireManage(Some(c), current, admins).Success? ==>
              IsManager(None, None, current, Some(c), admins) == Success(true)
  {
    RequireManageIff(Some(c), current, admins);
  }
}
