/** The document application's handlers of the membership signals (documents/signals.py):
    they keep the local roles on the community folder in line with the memberships. The
    re-indexing of the folder tree that follows each change is left out. */
module DocSignals {
  import opened Wrappers
  import opened Communities

  /** `new_community_member`: without a folder nothing happens; otherwise the user's
      managed roles on the folder become exactly the local role of the membership's role,
      and every other assignment stays. */
  function NewCommunityMember(c: Community, u: UserId, role: Role): (r: Community)
    ensures c.folder.None? ==> r == c
    ensures r.folder.Some? <==> c.folder.Some?
    ensures r.memberships == c.memberships && r.membershipCount == c.membershipCount
    ensures r.folder.Some? ==>
              r.folder.value.name == c.folder.value.name
              && ManagedRoles(r.folder.value.grants, u) == {LocalRole(c.participative, role)}
              && (forall g: Grant :: g.who != UserP(u) ==> (g in r.folder.value.grants <==> g in c.folder.value.grants))
              && (forall x :: x !in ValidRoles ==>
                    (x in RolesOn(r.folder.value.grants, u) <==> x in RolesOn(c.folder.value.grants, u)))
  {
    if c.folder.None? then c
    else
      var local := LocalRole(c.participative, role);
      ReconcileEffect(c.folder.value.grants, u, local);
      c.(folder := ReconcileFolder(c.folder, u, local))
  }

  /** `remove_community_member`: without a folder nothing happens; otherwise every managed
      role of the user is ungranted and nothing else. */
  function RemoveCommunityMember(c: Community, u: UserId): (r: Community)
    ensures c.folder.None? ==> r == c
    ensures r.folder.Some? <==> c.folder.Some?
    ensures r.memberships == c.memberships && r.membershipCount == c.membershipCount
    ensures r.folder.Some? ==>
              r.folder.value.name == c.folder.value.name
              && ManagedRoles(r.folder.value.grants, u) == {}
              && (forall g: Grant :: g.who != UserP(u) ==> (g in r.folder.value.grants <==> g in c.folder.value.grants))
              && (forall x :: x !in ValidRoles ==>
                    (x in RolesOn(r.folder.value.grants, u) <==> x in RolesOn(c.folder.value.grants, u)))
  {
    if c.folder.None? then c
    else
      RemoveManagedEffect(c.folder.value.grants, u);
      c.(folder := RemoveFromFolder(c.folder, u))
  }

  /** `set_membership` sends `membership_set` after it has reconciled the folder itself, so
      the handler finds nothing left to do. */
  lemma SetMembershipSignalNoOp(c: Community, u: UserId, role: Role)
    ensures var r := SetMembership(c, u, role);
            r.Success? ==> NewCommunityMember(r.value.0, u, role) == r.value.0
  {
    var r := SetMembership(c, u, role);
    if r.Success? && c.folder.Some? {
      ReconcileIdempotent(c.folder.value.grants, u, LocalRole(c.participative, role));
    }
  }

  /** `remove_membership` sends `membership_removed` first and then ungrants the same roles
      itself: the membership change followed by the handler alone gives the same folder. */
  lemma RemoveMembershipSignalAgrees(c: Community, u: UserId)
    ensures var r := RemoveMembership(c, u);
            r.Success? ==>
              r.value.folder == RemoveCommunityMember(c, u).folder
              && RemoveCommunityMember(r.value, u) == r.value
  {
    var r := RemoveMembership(c, u);
    if r.Success? && c.folder.Some? {
      var g1 := RemoveManaged(c.folder.value.grants, u);
      assert RemoveManaged(g1, u) == g1;
    }
  }
}
