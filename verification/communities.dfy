/** Communities (communities/models.py): memberships, the local roles a membership gives
    on the community folder, and the community-level permission table.

    The security service is reduced to the set of local role assignments held on the
    community folder; group assignments are principals of their own, which
    `get_roles(..., no_group_roles=True)` does not see. Queries on the `Membership` table
    become lookups in a user→role map. */
module Communities {
  import opened Wrappers

  type UserId = nat
  type GroupId = nat

  /** The roles of the security service that appear here; `Member` is the community role
      `MEMBER`, the others are the service's own. */
  datatype Role = Reader | Writer | Manager | Member | Admin | OtherRole(name: string)

  /** `VALID_ROLES`: the roles a community manages on its folder. */
  const ValidRoles: set<Role> := {Reader, Writer, Manager, Member}

  /** `Role(name)`: a role is identified by its exact name. */
  function RoleNamed(name: string): (r: Role)
    ensures r in ValidRoles <==> name in ["reader", "writer", "manager", "member"]
    ensures name == "manager" <==> r == Manager
    ensures name == "member" <==> r == Member
  {
    if name == "reader" then Reader
    else if name == "writer" then Writer
    else if name == "manager" then Manager
    else if name == "member" then Member
    else if name == "admin" then Admin
    else OtherRole(name)
  }

  datatype Principal = UserP(user: UserId) | GroupP(group: GroupId)

  /** One local role assignment on the folder. */
  datatype Grant = Grant(who: Principal, role: Role)

  /** The community folder: its name and the local role assignments held on it. */
  datatype Folder = Folder(name: string, grants: set<Grant>)

  /** A `Community` row. `participative` is `type == 'participative'`; every other value of
      the type column behaves as "informative". `creator` is the entity's creator. */
  datatype Community = Community(
    name: string,
    creator: Option<UserId>,
    participative: bool,
    folder: Option<Folder>,
    memberships: map<UserId, Role>,
    membershipCount: int,
    documentCount: int,
    lastActiveAt: int)

  datatype CommunityError = ValueError | KeyError

  // ---------------------------------------------------------------------------
  // Local roles on the folder
  // ---------------------------------------------------------------------------

  /** `security.get_roles(user, folder, no_group_roles=True)`. */
  function RolesOn(grants: set<Grant>, u: UserId): (r: set<Role>)
    ensures forall g :: g in grants && g.who == UserP(u) ==> g.role in r
  {
    set g | g in grants && g.who == UserP(u) :: g.role
  }

  lemma RolesOnMember(grants: set<Grant>, u: UserId, role: Role)
    ensures role in RolesOn(grants, u) <==> Grant(UserP(u), role) in grants
  {
    if role in RolesOn(grants, u) {
      var g :| g in grants && g.who == UserP(u) && g.role == role;
      assert g == Grant(UserP(u), role);
    }
  }

  /** The role a membership gives on the folder: Manager for managers, otherwise Writer in a
      participative community and Reader in an informative one. */
  function LocalRole(participative: bool, role: Role): (r: Role)
    ensures r in ValidRoles && r != Member
    ensures r == Manager <==> role == Manager
    ensures r == Writer <==> role != Manager && participative
  {
    if role == Manager then Manager
    else if participative then Writer
    else Reader
  }

  /** The user's roles on the folder that the community manages. */
  function ManagedRoles(grants: set<Grant>, u: UserId): (r: set<Role>)
    ensures r <= ValidRoles
  {
    RolesOn(grants, u) * ValidRoles
  }

  /** Ungrant every managed role of `u` except `local`, then grant `local` if missing. */
  function Reconcile(grants: set<Grant>, u: UserId, local: Role): (r: set<Grant>)
    requires local in ValidRoles
    ensures Grant(UserP(u), local) in r
    ensures forall g :: g in r && g !in grants ==> g == Grant(UserP(u), local)
    ensures forall g :: g in grants && g !in r ==> g.who == UserP(u) && g.role in ValidRoles
  {
    (set g | g in grants && !(g.who == UserP(u) && g.role in ValidRoles && g.role != local))
      + {Grant(UserP(u), local)}
  }

  /** After reconciliation the managed roles of `u` are exactly `{local}`; the roles of `u`
      outside `VALID_ROLES` and every other principal's assignments are untouched. */
  lemma ReconcileEffect(grants: set<Grant>, u: UserId, local: Role)
    requires local in ValidRoles
    ensures ManagedRoles(Reconcile(grants, u, local), u) == {local}
    ensures forall role :: role !in ValidRoles ==>
              (role in RolesOn(Reconcile(grants, u, local), u) <==> role in RolesOn(grants, u))
    ensures forall g: Grant :: g.who != UserP(u) ==> (g in Reconcile(grants, u, local) <==> g in grants)
  {
    var r := Reconcile(grants, u, local);
    forall role | role in ValidRoles
      ensures role in RolesOn(r, u) <==> role == local
    {
      RolesOnMember(r, u, role);
    }
    forall role | role !in ValidRoles
      ensures role in RolesOn(r, u) <==> role in RolesOn(grants, u)
    {
      RolesOnMember(r, u, role);
      RolesOnMember(grants, u, role);
    }
  }

  /** Reconciling twice towards the same role is reconciling once. */
  lemma ReconcileIdempotent(grants: set<Grant>, u: UserId, local: Role)
    requires local in ValidRoles
    ensures Reconcile(Reconcile(grants, u, local), u, local) == Reconcile(grants, u, local)
  {
  }

  /** Ungrant every managed role of `u`. */
  function RemoveManaged(grants: set<Grant>, u: UserId): (r: set<Grant>)
    ensures r <= grants
    ensures forall g :: g in grants && g !in r ==> g.who == UserP(u) && g.role in ValidRoles
  {
    set g | g in grants && !(g.who == UserP(u) && g.role in ValidRoles)
  }

  /** Removal leaves `u` no managed role, and nothing else changes. */
  lemma RemoveManagedEffect(grants: set<Grant>, u: UserId)
    ensures ManagedRoles(RemoveManaged(grants, u), u) == {}
    ensures forall role :: role !in ValidRoles ==>
              (role in RolesOn(RemoveManaged(grants, u), u) <==> role in RolesOn(grants, u))
    ensures forall g: Grant :: g.who != UserP(u) ==> (g in RemoveManaged(grants, u) <==> g in grants)
  {
    var r := RemoveManaged(grants, u);
    forall role | role in RolesOn(r, u)
      ensures role !in ValidRoles
    {
      RolesOnMember(r, u, role);
    }
    forall role | role !in ValidRoles
      ensures role in RolesOn(r, u) <==> role in RolesOn(grants, u)
    {
      RolesOnMember(r, u, role);
      RolesOnMember(grants, u, role);
    }
  }

  // ---------------------------------------------------------------------------
  // Memberships
  // ---------------------------------------------------------------------------

  /** `get_role`: the role of the user's membership, None for a non-member. */
  function GetRole(c: Community, u: UserId): (r: Option<Role>)
    ensures r.Some? <==> u in c.memberships
    ensures r.Some? ==> r.value == c.memberships[u]
  {
    if u in c.memberships then Some(c.memberships[u]) else None
  }

  /** `has_member`. */
  predicate HasMember(c: Community, u: UserId) {
    GetRole(c, u).Some?
  }

  /** The membership counter agrees with the membership rows. */
  predicate CountConsistent(c: Community) {
    c.membershipCount == |c.memberships|
  }

  /** The managed roles the membership rows call for: the local role of a member's role,
      nothing for a non-member. */
  function Expected(m: map<UserId, Role>, participative: bool, v: UserId): (r: set<Role>)
    ensures r <= ValidRoles
    ensures v in m <==> r != {}
  {
    if v in m then {LocalRole(participative, m[v])} else {}
  }

  /** Every user holds exactly the managed roles the memberships call for. */
  ghost predicate Synced(grants: set<Grant>, m: map<UserId, Role>, participative: bool) {
    forall v: UserId :: ManagedRoles(grants, v) == Expected(m, participative, v)
  }

  /** The community folder, when there is one, is in sync with the memberships. */
  ghost predicate FolderInSync(c: Community) {
    c.folder.Some? ==> Synced(c.folder.value.grants, c.memberships, c.participative)
  }

  /** Changing the assignments and the membership of one user only keeps the others synced. */
  lemma SyncedUpdate(g0: set<Grant>, g1: set<Grant>, m0: map<UserId, Role>, m1: map<UserId, Role>,
                     participative: bool, u: UserId)
    requires Synced(g0, m0, participative)
    requires forall g: Grant :: g.who != UserP(u) ==> (g in g0 <==> g in g1)
    requires ManagedRoles(g1, u) == Expected(m1, participative, u)
    requires forall v :: v != u ==> Expected(m0, participative, v) == Expected(m1, participative, v)
    ensures Synced(g1, m1, participative)
  {
    forall v: UserId
      ensures ManagedRoles(g1, v) == Expected(m1, participative, v)
    {
      if v != u {
        ManagedUnchanged(g0, g1, u, v);
      }
    }
  }

  /** Setting a key counts one more entry exactly when the key was absent. */
  lemma CardUpdate(m: map<UserId, Role>, u: UserId, role: Role)
    ensures |m[u := role]| == |m| + (if u in m then 0 else 1)
  {
    if u in m {
      assert m[u := role].Keys == m.Keys;
    } else {
      assert m[u := role].Keys == m.Keys + {u};
    }
  }

  /** Removing a present key counts one entry less. */
  lemma CardRemove(m: map<UserId, Role>, u: UserId)
    requires u in m
    ensures |m - {u}| == |m| - 1
  {
    assert (m - {u}).Keys == m.Keys - {u};
  }

  /** `set_membership`: a role outside `VALID_ROLES` is a ValueError and changes nothing.
      Otherwise the membership is created (counting one more member) or its role replaced,
      and the folder roles of the user are reconciled. The second component is the signal's
      `is_new`. */
  function SetMembership(c: Community, u: UserId, role: Role): (r: Result<(Community, bool), CommunityError>)
    ensures role !in ValidRoles <==> r == Failure(ValueError)
    ensures r.Success? ==>
              var (c2, isNew) := r.value;
              (isNew <==> u !in c.memberships)
              && c2.memberships == c.memberships[u := role]
              && c2.membershipCount == c.membershipCount + (if isNew then 1 else 0)
              && c2.folder.Some? == c.folder.Some?
              && c2.name == c.name && c2.participative == c.participative
              && c2.documentCount == c.documentCount
    ensures r.Success? && c.folder.Some? ==>
              r.value.0.folder.value.name == c.folder.value.name
              && ManagedRoles(r.value.0.folder.value.grants, u) == {LocalRole(c.participative, role)}
  {
    if role !in ValidRoles then Failure(ValueError)
    else
      var isNew := u !in c.memberships;
      var c1 := c.(memberships := c.memberships[u := role],
                   membershipCount := c.membershipCount + (if isNew then 1 else 0));
      var c2 := c1.(folder := ReconcileFolder(c1.folder, u, LocalRole(c.participative, role)));
      Success((c2, isNew))
  }

  /** The folder part of `set_membership` (and of the `membership_set` handler). */
  function ReconcileFolder(f: Option<Folder>, u: UserId, local: Role): (r: Option<Folder>)
    requires local in ValidRoles
    ensures r.Some? <==> f.Some?
    ensures r.Some? ==> r.value.name == f.value.name && ManagedRoles(r.value.grants, u) == {local}
  {
    match f
    case None => None
    case Some(folder) =>
      ReconcileEffect(folder.grants, u, local);
      Some(folder.(grants := Reconcile(folder.grants, u, local)))
  }

  /** `set_membership` keeps the counter consistent and the folder in sync. */
  lemma SetMembershipInvariant(c: Community, u: UserId, role: Role)
    requires CountConsistent(c) && FolderInSync(c)
    ensures var r := SetMembership(c, u, role);
            r.Success? ==> CountConsistent(r.value.0) && FolderInSync(r.value.0)
  {
    var r := SetMembership(c, u, role);
    if r.Success? {
      var c2 := r.value.0;
      CardUpdate(c.memberships, u, role);
      if c.folder.Some? {
        ReconcileEffect(c.folder.value.grants, u, LocalRole(c.participative, role));
        SyncedUpdate(c.folder.value.grants, c2.folder.value.grants, c.memberships, c2.memberships, c.participative, u);
      }
    }
  }

  /** Two assignment sets that agree on every principal but `u` give `v != u` the same roles. */
  lemma ManagedUnchanged(a: set<Grant>, b: set<Grant>, u: UserId, v: UserId)
    requires v != u
    requires forall g: Grant :: g.who != UserP(u) ==> (g in a <==> g in b)
    ensures ManagedRoles(a, v) == ManagedRoles(b, v)
  {
    forall role
      ensures role in RolesOn(a, v) <==> role in RolesOn(b, v)
    {
      RolesOnMember(a, v, role);
      RolesOnMember(b, v, role);
    }
  }

  /** Repeating `set_membership` with the same arguments changes nothing more; the repeated
      call reports an existing membership. */
  lemma SetMembershipIdempotent(c: Community, u: UserId, role: Role)
    ensures var r := SetMembership(c, u, role);
            r.Success? ==>
              var r2 := SetMembership(r.value.0, u, role);
              r2.Success? && r2.value.0 == r.value.0 && !r2.value.1
  {
    if role in ValidRoles && c.folder.Some? {
      ReconcileIdempotent(c.folder.value.grants, u, LocalRole(c.participative, role));
    }
  }

  /** `remove_membership`: a non-member is a KeyError. Otherwise the membership is deleted,
      the counter decremented, and every managed role of the user on the folder ungranted
      (once by the `membership_removed` handler, once here). */
  function RemoveMembership(c: Community, u: UserId): (r: Result<Community, CommunityError>)
    ensures u !in c.memberships <==> r == Failure(KeyError)
    ensures r.Success? ==>
              r.value.memberships == c.memberships - {u}
              && r.value.membershipCount == c.membershipCount - 1
              && r.value.folder.Some? == c.folder.Some?
              && r.value.name == c.name && r.value.participative == c.participative
    ensures r.Success? && c.folder.Some? ==>
              ManagedRoles(r.value.folder.value.grants, u) == {}
              && r.value.folder.value.name == c.folder.value.name
  {
    if u !in c.memberships then Failure(KeyError)
    else
      var c1 := c.(folder := RemoveFromFolder(c.folder, u));
      var c2 := c1.(memberships := c1.memberships - {u}, membershipCount := c1.membershipCount - 1);
      Success(c2.(folder := RemoveFromFolder(c2.folder, u)))
  }

  /** The folder part of `remove_membership` (and of the `membership_removed` handler). */
  function RemoveFromFolder(f: Option<Folder>, u: UserId): (r: Option<Folder>)
    ensures r.Some? <==> f.Some?
    ensures r.Some? ==> r.value.name == f.value.name && ManagedRoles(r.value.grants, u) == {}
  {
    match f
    case None => None
    case Some(folder) =>
      RemoveManagedEffect(folder.grants, u);
      Some(folder.(grants := RemoveManaged(folder.grants, u)))
  }

  /** `remove_membership` keeps the counter consistent and the folder in sync. */
  lemma RemoveMembershipInvariant(c: Community, u: UserId)
    requires CountConsistent(c) && FolderInSync(c)
    ensures var r := RemoveMembership(c, u);
            r.Success? ==> CountConsistent(r.value) && FolderInSync(r.value)
  {
    var r := RemoveMembership(c, u);
    if r.Success? {
      var c2 := r.value;
      CardRemove(c.memberships, u);
      if c.folder.Some? {
        var g0 := c.folder.value.grants;
        var g1 := RemoveManaged(g0, u);
        RemoveManagedEffect(g0, u);
        RemoveManagedEffect(g1, u);
        SyncedUpdate(g0, c2.folder.value.grants, c.memberships, c2.memberships, c.participative, u);
      }
    }
  }

  /** Adding a member and removing it again restores the membership rows, the counter and the
      member's managed roles (none, for a user who was not a member of an in-sync folder). */
  lemma SetThenRemove(c: Community, u: UserId, role: Role)
    requires FolderInSync(c) && u !in c.memberships && role in ValidRoles
    ensures var c2 := SetMembership(c, u, role).value.0;
            var c3 := RemoveMembership(c2, u);
            c3.Success? && c3.value.memberships == c.memberships
            && c3.value.membershipCount == c.membershipCount
            && (c.folder.Some? ==> ManagedRoles(c3.value.folder.value.grants, u) == ManagedRoles(c.folder.value.grants, u))
  {
    var c2 := SetMembership(c, u, role).value.0;
    assert c2.memberships - {u} == c.memberships;
    if c.folder.Some? {
      assert ManagedRoles(c.folder.value.grants, u) == Expected(c.memberships, c.participative, u) == {};
    }
  }

  /** `update_roles_on_folder`: every assignment on the folder is ungranted (group and
      non-managed ones included), then each membership grants exactly its local role. */
  function UpdateRolesOnFolder(c: Community): (r: Community)
    ensures r.memberships == c.memberships && r.name == c.name && r.participative == c.participative
    ensures r.folder.Some? <==> c.folder.Some?
    ensures r.folder.Some? ==>
              forall g :: g in r.folder.value.grants <==>
                            g.who.UserP? && g.who.user in c.memberships
                            && g.role == LocalRole(c.participative, c.memberships[g.who.user])
  {
    match c.folder
    case None => c
    case Some(f) =>
      c.(folder := Some(f.(grants := set u | u in c.memberships :: Grant(UserP(u), LocalRole(c.participative, c.memberships[u])))))
  }

  /** After `update_roles_on_folder` the folder is in sync with the memberships. */
  lemma UpdateRolesSyncs(c: Community)
    ensures FolderInSync(UpdateRolesOnFolder(c))
  {
    var r := UpdateRolesOnFolder(c);
    if r.folder.Some? {
      forall v: UserId
        ensures ManagedRoles(r.folder.value.grants, v) == Expected(r.memberships, r.participative, v)
      {
        forall role
          ensures role in RolesOn(r.folder.value.grants, v)
                  <==> v in r.memberships && role == LocalRole(r.participative, r.memberships[v])
        {
          RolesOnMember(r.folder.value.grants, v, role);
        }
      }
    }
  }

  /** `rename`: the community and its folder take the new name; nothing else changes. */
  function Rename(c: Community, name: string): (r: Community)
    ensures r.name == name
    ensures r.folder.Some? <==> c.folder.Some?
    ensures r.folder.Some? ==> r.folder.value == c.folder.value.(name := name)
    ensures r.memberships == c.memberships && r.membershipCount == c.membershipCount
  {
    c.(name := name, folder := if c.folder.Some? then Some(c.folder.value.(name := name)) else None)
  }

  // ---------------------------------------------------------------------------
  // Permissions
  // ---------------------------------------------------------------------------

  /** `has_permission`: admins have every permission, managers too; plain members have
      "read" and "write" only; everybody else none. */
  function HasPermission(c: Community, u: UserId, admin: bool, permission: string): (r: bool)
    ensures !admin && !HasMember(c, u) ==> !r
    ensures admin ==> r
  {
    if admin then true
    else if GetRole(c, u) == Some(Manager) then true
    else GetRole(c, u) == Some(Member) && (permission == "read" || permission == "write")
  }

  /** For a non-admin in an in-sync community, the "manage" permission is exactly holding the
      Manager role on the folder. */
  lemma ManageIsFolderManager(c: Community, u: UserId)
    requires FolderInSync(c) && c.folder.Some?
    ensures HasPermission(c, u, false, "manage") <==> Manager in RolesOn(c.folder.value.grants, u)
  {
    assert "manage" != "read" && "manage" != "write" by {
      assert "manage"[0] != "read"[0] && "manage"[0] != "write"[0];
    }
    assert Manager in ValidRoles;
    assert ManagedRoles(c.folder.value.grants, u) == Expected(c.memberships, c.participative, u);
    if Manager in RolesOn(c.folder.value.grants, u) {
      assert Manager in ManagedRoles(c.folder.value.grants, u);
    }
  }

  /** A plain member can read and write but not manage; a Manager membership can do anything
      a Member one can. */
  lemma MemberPermissions(c: Community, u: UserId, p: string)
    requires GetRole(c, u) == Some(Member)
    ensures HasPermission(c, u, false, "read") && HasPermission(c, u, false, "write")
    ensures !HasPermission(c, u, false, "manage")
    ensures HasPermission(c, u, false, p) ==> HasPermission(c.(memberships := c.memberships[u := Manager]), u, false, p)
  {
    assert "manage"[0] != "read"[0] && "manage"[0] != "write"[0];
  }
}
