/**
  `Gitlab::LDAP::GroupSync`: brings GitLab group memberships in line with the
  LDAP groups linked to them.

  For one group, the access hash maps each LDAP member DN to the highest
  access level any of the group's LDAP links grants it. Existing members are
  then reconciled against the hash (updated, or removed when their DN is no
  longer in it, but never so as to leave the group without its last owner),
  and the DNs left in the hash are added as new members when exactly one
  GitLab user carries that identity. Separately, a user's admin flag follows
  membership of the configured LDAP admin group.

  LDAP lookups and database queries are inputs: a group's member DNs and UIDs,
  each user's LDAP DN for the provider (`dnOf`), and the users found for a DN
  (`usersWithDn`).
*/
module GroupSync {
  import opened Wrappers
  import opened Strings

  type UserId = nat
  type Dn = string
  type AccessLevel = nat

  /** `Gitlab::Access::OWNER`. */
  const OWNER: AccessLevel := 50

  /** An LDAP group as the adapter returns it. */
  datatype LdapGroup = LdapGroup(cn: string, memberDns: seq<Dn>, memberUids: seq<string>)

  /** `ldap_group_members`: the group's member DNs, or its member UIDs when it
      lists no DNs. */
  function LdapGroupMembers(g: LdapGroup): (r: seq<Dn>)
    ensures |g.memberDns| > 0 ==> r == g.memberDns
    ensures |g.memberDns| == 0 ==> r == g.memberUids
    ensures r == [] <==> g.memberDns == [] && g.memberUids == []
  {
    var dns := if |g.memberDns| == 0 then g.memberUids else g.memberDns;
    if |dns| == 0 then [] else dns
  }

  function Max(a: AccessLevel, b: AccessLevel): AccessLevel
  {
    if a > b then a else b
  }

  /** `members_to_access_hash`: every listed DN ends up with the higher of its
      previous level (if any) and `groupAccess`; other DNs keep theirs. */
  method MembersToAccessHash(accessHash: map<Dn, AccessLevel>, memberDns: seq<Dn>, groupAccess: AccessLevel)
    returns (r: map<Dn, AccessLevel>)
    ensures forall dn :: dn in r <==> dn in accessHash || dn in memberDns
    ensures forall dn :: dn in memberDns ==>
              r[dn] == if dn in accessHash then Max(accessHash[dn], groupAccess) else groupAccess
    ensures forall dn :: dn in accessHash && dn !in memberDns ==> r[dn] == accessHash[dn]
  {
    r := accessHash;
    for i := 0 to |memberDns|
      invariant forall dn :: dn in r <==> dn in accessHash || dn in memberDns[..i]
      invariant forall dn :: dn in memberDns[..i] ==>
                  r[dn] == if dn in accessHash then Max(accessHash[dn], groupAccess) else groupAccess
      invariant forall dn :: dn in accessHash && dn !in memberDns[..i] ==> r[dn] == accessHash[dn]
    {
      var dn := memberDns[i];
      assert memberDns[..i + 1] == memberDns[..i] + [dn];
      if dn in r {
        if groupAccess > r[dn] {
          r := r[dn := groupAccess];
        }
      } else {
        r := r[dn := groupAccess];
      }
    }
    assert memberDns[..|memberDns|] == memberDns;
  }

  /** `Group#last_owner?`: `u` is an owner of the group and the only one. */
  predicate LastOwner(members: map<UserId, AccessLevel>, u: UserId)
  {
    u in members && members[u] == OWNER &&
    forall v :: v in members && members[v] == OWNER ==> v == u
  }

  predicate HasOwner(members: map<UserId, AccessLevel>)
  {
    exists v :: v in members && members[v] == OWNER
  }

  /** The memberships after `add_or_update_user_membership(u, access)`: the
      last owner is left alone when the new level is not owner; otherwise `u`
      gets `access`. */
  function AddOrUpdate(members: map<UserId, AccessLevel>, u: UserId, access: AccessLevel)
    : (r: map<UserId, AccessLevel>)
    ensures access != OWNER && LastOwner(members, u) ==> r == members
    ensures !(access != OWNER && LastOwner(members, u)) ==> u in r && r[u] == access
    ensures forall v :: v != u ==> (v in r <==> v in members) && (v in r ==> r[v] == members[v])
  {
    if access != OWNER && LastOwner(members, u) then members else members[u := access]
  }

  /** A group that has an owner keeps one through `add_or_update_user_membership`. */
  lemma AddOrUpdateKeepsOwner(members: map<UserId, AccessLevel>, u: UserId, access: AccessLevel)
    requires HasOwner(members)
    ensures HasOwner(AddOrUpdate(members, u, access))
  {
    var r := AddOrUpdate(members, u, access);
    if access == OWNER {
      assert r[u] == OWNER;
    } else if !LastOwner(members, u) {
      var v :| v in members && members[v] == OWNER;
      if v == u {
        var w :| w in members && members[w] == OWNER && w != u;
        assert r[w] == OWNER;
      } else {
        assert r[v] == OWNER;
      }
    }
  }

  /** The group's memberships and the access hash while the sync runs. */
  datatype SyncState = SyncState(members: map<UserId, AccessLevel>, accessHash: map<Dn, AccessLevel>)

  /** The member's LDAP DN for the provider, when it is present. */
  function MemberDn(dnOf: map<UserId, Dn>, u: UserId): Option<Dn>
  {
    if u in dnOf && IsPresent(dnOf[u]) then Some(dnOf[u]) else None
  }

  /** One iteration of `update_existing_group_membership`, for member `u`,
      acting on the member's own user in every branch. */
  function UpdateMember(s: SyncState, u: UserId, dnOf: map<UserId, Dn>): (r: SyncState)
    // Only `u`'s membership can change, and the hash only loses entries.
    ensures forall v :: v != u ==> (v in r.members <==> v in s.members) && (v in r.members ==> r.members[v] == s.members[v])
    ensures forall dn :: dn in r.accessHash ==> dn in s.accessHash && r.accessHash[dn] == s.accessHash[dn]
    // Only the member's own DN can leave the hash.
    ensures forall dn :: dn in s.accessHash && MemberDn(dnOf, u) != Some(dn) ==> dn in r.accessHash
    // Members without an LDAP DN are skipped.
    ensures MemberDn(dnOf, u).None? ==> r == s
    // A member already at the desired level is skipped.
    ensures (MemberDn(dnOf, u).Some? && MemberDn(dnOf, u).value in s.accessHash && u in s.members &&
             s.members[u] == s.accessHash[MemberDn(dnOf, u).value]) ==> r == s
    // A member with a different desired level gets it (unless that would demote
    // the last owner), and its DN leaves the hash.
    ensures (MemberDn(dnOf, u).Some? && MemberDn(dnOf, u).value in s.accessHash &&
             !(u in s.members && s.members[u] == s.accessHash[MemberDn(dnOf, u).value])) ==>
              MemberDn(dnOf, u).value !in r.accessHash &&
              r.members == AddOrUpdate(s.members, u, s.accessHash[MemberDn(dnOf, u).value])
    // A member whose DN is not in the hash is removed unless it is the last owner.
    ensures MemberDn(dnOf, u).Some? && MemberDn(dnOf, u).value !in s.accessHash ==>
              r.accessHash == s.accessHash
    ensures MemberDn(dnOf, u).Some? && MemberDn(dnOf, u).value !in s.accessHash && u in s.members ==>
              (u in r.members <==> LastOwner(s.members, u))
    // The last owner is never demoted nor removed.
    ensures LastOwner(s.members, u) ==> u in r.members && r.members[u] == OWNER
  {
    match MemberDn(dnOf, u)
    case None => s
    case Some(dn) =>
      if dn in s.accessHash then
        var desired := s.accessHash[dn];
        if u in s.members && s.members[u] == desired then s
        else SyncState(AddOrUpdate(s.members, u, desired), s.accessHash - {dn})
      else if LastOwner(s.members, u) then s
      else SyncState(s.members - {u}, s.accessHash)
  }

  /** A group that has an owner keeps one through an iteration. */
  lemma UpdateMemberKeepsOwner(s: SyncState, u: UserId, dnOf: map<UserId, Dn>)
    requires HasOwner(s.members)
    ensures HasOwner(UpdateMember(s, u, dnOf).members)
  {
    var r := UpdateMember(s, u, dnOf);
    var dn := MemberDn(dnOf, u);
    if dn.Some? && dn.value in s.accessHash {
      AddOrUpdateKeepsOwner(s.members, u, s.accessHash[dn.value]);
    } else if dn.Some? && !LastOwner(s.members, u) {
      var v :| v in s.members && s.members[v] == OWNER;
      if v == u {
        var w :| w in s.members && s.members[w] == OWNER && w != u;
        assert r.members[w] == OWNER;
      } else {
        assert r.members[v] == OWNER;
      }
    }
  }

  /** The state after `update_existing_group_membership` visits the members in
      `order`. */
  function Reconcile(s: SyncState, order: seq<UserId>, dnOf: map<UserId, Dn>): (r: SyncState)
    ensures forall dn :: dn in r.accessHash ==> dn in s.accessHash && r.accessHash[dn] == s.accessHash[dn]
    // A DN stays in the hash unless a visited member has it.
    ensures forall dn :: dn in s.accessHash && (forall v :: v in order ==> MemberDn(dnOf, v) != Some(dn)) ==>
              dn in r.accessHash
    ensures forall v :: v !in order || MemberDn(dnOf, v).None? ==>
              (v in r.members <==> v in s.members) && (v in r.members ==> r.members[v] == s.members[v])
  {
    if |order| == 0 then s
    else UpdateMember(Reconcile(s, order[..|order| - 1], dnOf), order[|order| - 1], dnOf)
  }

  /** A group that has an owner before the reconciliation still has one after it. */
  lemma {:induction false} ReconcileKeepsOwner(s: SyncState, order: seq<UserId>, dnOf: map<UserId, Dn>)
    requires HasOwner(s.members)
    ensures HasOwner(Reconcile(s, order, dnOf).members)
  {
    if |order| > 0 {
      ReconcileKeepsOwner(s, order[..|order| - 1], dnOf);
      UpdateMemberKeepsOwner(Reconcile(s, order[..|order| - 1], dnOf), order[|order| - 1], dnOf);
    }
  }

  /** One iteration as the code is written: in the branch that removes a
      member, `user` was never assigned, so `last_owner?(nil)` is false and
      `group.users.delete(nil)` raises a type mismatch, ending the sync
      (`None`). Everywhere else it agrees with `UpdateMember`. */
  function UpdateMemberAsWritten(s: SyncState, u: UserId, dnOf: map<UserId, Dn>): (r: Option<SyncState>)
    ensures r.Some? ==> r.value == UpdateMember(s, u, dnOf)
    ensures r.None? <==> MemberDn(dnOf, u).Some? && MemberDn(dnOf, u).value !in s.accessHash
  {
    match MemberDn(dnOf, u)
    case None => Some(s)
    case Some(dn) =>
      if dn in s.accessHash then
        var desired := s.accessHash[dn];
        if u in s.members && s.members[u] == desired then Some(s)
        else Some(SyncState(AddOrUpdate(s.members, u, desired), s.accessHash - {dn}))
      else None
  }

  /** The loop as written: it stops at the first member it should remove. */
  function ReconcileAsWritten(s: SyncState, order: seq<UserId>, dnOf: map<UserId, Dn>): (r: Option<SyncState>)
    ensures r.Some? ==> r.value == Reconcile(s, order, dnOf)
  {
    if |order| == 0 then Some(s)
    else
      match ReconcileAsWritten(s, order[..|order| - 1], dnOf)
      case None => None
      case Some(prev) => UpdateMemberAsWritten(prev, order[|order| - 1], dnOf)
  }

  /** A developer whose DN left every linked LDAP group: the reconciliation
      removes them, while the code as written raises before removing anyone. */
  lemma StaleMemberNotRemovedAsWritten()
    ensures var s := SyncState(map[1 := 30, 2 := OWNER], map[]);
      var dnOf := map[1 := "uid=alice,ou=people"];
      && Reconcile(s, [1, 2], dnOf).members == map[2 := OWNER]
      && ReconcileAsWritten(s, [1, 2], dnOf) == None
  {
    var s := SyncState(map[1 := 30, 2 := OWNER], map[]);
    var dnOf := map[1 := "uid=alice,ou=people"];
    assert IsPresent(dnOf[1]) by { assert !IsSpace(dnOf[1][0]); }
    assert [1, 2][..1] == [1];
    assert [1][..0] == [];
    assert !LastOwner(s.members, 1);
    assert Reconcile(s, [1], dnOf).members == map[2 := OWNER];
    assert ReconcileAsWritten(s, [1], dnOf) == None;
  }

  /** The GitLab user whose admin flag the sync maintains. */
  class User {
    const id: UserId
    var admin: bool

    constructor (id: UserId, admin: bool)
      ensures this.id == id && this.admin == admin
    {
      this.id := id;
      this.admin := admin;
    }
  }

  /** `update_admin_status`: afterwards the admin flag says whether the admin
      group was found and has the user as a member; the user is saved only
      when the flag changed. */
  method UpdateAdminStatus(user: User, adminGroupFound: bool, adminGroupHasUser: bool) returns (saved: bool)
    modifies user
    ensures user.admin == (adminGroupFound && adminGroupHasUser)
    ensures saved <==> old(user.admin) != user.admin
  {
    saved := false;
    if adminGroupFound && adminGroupHasUser {
      if !user.admin {
        user.admin := true;
        saved := true;
      }
    } else {
      if user.admin {
        user.admin := false;
        saved := true;
      }
    }
  }

  /** A GitLab group's memberships. */
  class Group {
    var members: map<UserId, AccessLevel>

    constructor (members: map<UserId, AccessLevel>)
      ensures this.members == members
    {
      this.members := members;
    }

    /** `add_or_update_user_membership`: refuses to demote the last owner. */
    method AddOrUpdateUserMembership(u: UserId, access: AccessLevel)
      modifies this
      ensures members == AddOrUpdate(old(members), u, access)
    {
      if access != OWNER && LastOwner(members, u) {
        // warn_cannot_remove_last_owner: nothing changes
      } else {
        members := members[u := access];
      }
    }

    /** `add_users([u], access)`: adds `u`, or sets its level when it is
        already a member. */
    method AddUser(u: UserId, access: AccessLevel)
      modifies this
      ensures members == old(members)[u := access]
    {
      members := members[u := access];
    }

    /** `group.users.delete(user)`. */
    method DeleteUser(u: UserId)
      modifies this
      ensures members == old(members) - {u}
    {
      members := members - {u};
    }
  }

  /** `update_existing_group_membership` over the group's members in `order`;
      returns the access hash with the DNs it acted on removed. */
  method UpdateExistingGroupMembership(group: Group, accessHash: map<Dn, AccessLevel>, order: seq<UserId>,
                                       dnOf: map<UserId, Dn>)
    returns (hash: map<Dn, AccessLevel>)
    modifies group
    ensures SyncState(group.members, hash) == Reconcile(SyncState(old(group.members), accessHash), order, dnOf)
  {
    hash := accessHash;
    for i := 0 to |order|
      invariant SyncState(group.members, hash) == Reconcile(SyncState(old(group.members), accessHash), order[..i], dnOf)
    {
      var u := order[i];
      assert order[..i + 1][..i] == order[..i];
      assert order[..i + 1][i] == u;
      if u in dnOf && IsPresent(dnOf[u]) {
        var dn := dnOf[u];
        if dn in hash && u in group.members && group.members[u] == hash[dn] {
          // already at the desired level
        } else if dn in hash {
          group.AddOrUpdateUserMembership(u, hash[dn]);
          hash := hash - {dn};
        } else if LastOwner(group.members, u) {
          // warn_cannot_remove_last_owner: nothing changes
        } else {
          group.DeleteUser(u);
        }
      }
    }
    assert order[..|order|] == order;
  }

  /** The one user found with this DN for the provider, if exactly one is. */
  function UniqueMatch(usersWithDn: map<Dn, seq<UserId>>, dn: Dn): (r: Option<UserId>)
    ensures r.Some? <==> dn in usersWithDn && |usersWithDn[dn]| == 1
    ensures r.Some? ==> r.value == usersWithDn[dn][0]
  {
    if dn in usersWithDn && |usersWithDn[dn]| == 1 then Some(usersWithDn[dn][0]) else None
  }

  /** The memberships after `add_new_members` visits the DNs left in the
      access hash, in `order`. */
  function MembersAfterAdding(members: map<UserId, AccessLevel>, accessHash: map<Dn, AccessLevel>, order: seq<Dn>,
                              usersWithDn: map<Dn, seq<UserId>>): (r: map<UserId, AccessLevel>)
    requires forall k :: 0 <= k < |order| ==> order[k] in accessHash
    // A user that no DN matches alone keeps its membership.
    ensures forall v :: (forall k :: 0 <= k < |order| ==> UniqueMatch(usersWithDn, order[k]) != Some(v)) ==>
              (v in r <==> v in members) && (v in r ==> r[v] == members[v])
    // Every changed or added user is the sole match of a DN and has that DN's level.
    ensures forall v :: v in r && !(v in members && r[v] == members[v]) ==>
              exists k :: 0 <= k < |order| && UniqueMatch(usersWithDn, order[k]) == Some(v) && r[v] == accessHash[order[k]]
    // Nobody is removed.
    ensures forall v :: v in members ==> v in r
  {
    if |order| == 0 then members
    else
      var prev := MembersAfterAdding(members, accessHash, order[..|order| - 1], usersWithDn);
      var dn := order[|order| - 1];
      assert forall k :: 0 <= k < |order| - 1 ==> order[..|order| - 1][k] == order[k];
      match UniqueMatch(usersWithDn, dn)
      case None => prev
      case Some(v) => prev[v := accessHash[dn]]
  }

  /** The last DN in `order` that matches a user alone decides that user's level. */
  lemma {:induction false} LastMatchDecides(members: map<UserId, AccessLevel>, accessHash: map<Dn, AccessLevel>,
                                            order: seq<Dn>, usersWithDn: map<Dn, seq<UserId>>, k: nat)
    requires forall j :: 0 <= j < |order| ==> order[j] in accessHash
    requires k < |order| && UniqueMatch(usersWithDn, order[k]).Some?
    requires forall j :: k < j < |order| ==> UniqueMatch(usersWithDn, order[j]) != UniqueMatch(usersWithDn, order[k])
    ensures var v := UniqueMatch(usersWithDn, order[k]).value;
      var r := MembersAfterAdding(members, accessHash, order, usersWithDn);
      v in r && r[v] == accessHash[order[k]]
  {
    if k < |order| - 1 {
      var init := order[..|order| - 1];
      assert forall j :: 0 <= j < |init| ==> init[j] == order[j];
      LastMatchDecides(members, accessHash, init, usersWithDn, k);
    }
  }

  /** Every DN visited that matches a user alone makes that user a member. */
  lemma {:induction false} MatchedAdded(members: map<UserId, AccessLevel>, accessHash: map<Dn, AccessLevel>,
                                        order: seq<Dn>, usersWithDn: map<Dn, seq<UserId>>, k: nat)
    requires forall j :: 0 <= j < |order| ==> order[j] in accessHash
    requires k < |order| && UniqueMatch(usersWithDn, order[k]).Some?
    ensures UniqueMatch(usersWithDn, order[k]).value in MembersAfterAdding(members, accessHash, order, usersWithDn)
    decreases |order|
  {
    var init := order[..|order| - 1];
    assert forall j :: 0 <= j < |init| ==> init[j] == order[j];
    if k < |order| - 1 {
      MatchedAdded(members, accessHash, init, usersWithDn, k);
    }
  }

  /** `order` visits the keys of the access hash, each once, as `each` does. */
  predicate VisitsEachKeyOnce(accessHash: map<Dn, AccessLevel>, order: seq<Dn>)
  {
    && (forall k :: 0 <= k < |order| ==> order[k] in accessHash)
    && (forall dn :: dn in accessHash ==> dn in order)
    && (forall i, j :: 0 <= i < j < |order| ==> order[i] != order[j])
  }

  /** `dn` is left in the hash, matches a user alone, and no other DN left
      matches that user alone. */
  predicate SoleMatch(accessHash: map<Dn, AccessLevel>, usersWithDn: map<Dn, seq<UserId>>, dn: Dn)
  {
    && dn in accessHash && UniqueMatch(usersWithDn, dn).Some?
    && forall d :: d in accessHash && d != dn ==> UniqueMatch(usersWithDn, d) != UniqueMatch(usersWithDn, dn)
  }

  /** Walking the whole hash, each DN that matches a user alone, and is the
      only DN matching that user, gives the user that DN's level. */
  lemma SoleMatchLevel(members: map<UserId, AccessLevel>, accessHash: map<Dn, AccessLevel>,
                       order: seq<Dn>, usersWithDn: map<Dn, seq<UserId>>, dn: Dn)
    requires VisitsEachKeyOnce(accessHash, order)
    requires SoleMatch(accessHash, usersWithDn, dn)
    ensures var r := MembersAfterAdding(members, accessHash, order, usersWithDn);
      var v := UniqueMatch(usersWithDn, dn).value;
      v in r && r[v] == accessHash[dn]
  {
    var k :| 0 <= k < |order| && order[k] == dn;
    forall j | k < j < |order|
      ensures UniqueMatch(usersWithDn, order[j]) != UniqueMatch(usersWithDn, order[k])
    {
      assert order[j] in accessHash && order[j] != dn;
    }
    LastMatchDecides(members, accessHash, order, usersWithDn, k);
  }

  /** One more DN visited by `add_new_members`. */
  lemma MembersAfterAddingStep(members: map<UserId, AccessLevel>, accessHash: map<Dn, AccessLevel>, order: seq<Dn>,
                               usersWithDn: map<Dn, seq<UserId>>, i: nat)
    requires forall k :: 0 <= k < |order| ==> order[k] in accessHash
    requires i < |order|
    ensures var prev := MembersAfterAdding(members, accessHash, order[..i], usersWithDn);
      var next := MembersAfterAdding(members, accessHash, order[..i + 1], usersWithDn);
      match UniqueMatch(usersWithDn, order[i])
      case None => next == prev
      case Some(v) => next == prev[v := accessHash[order[i]]]
  {
    assert order[..i + 1][..i] == order[..i];
    assert order[..i + 1][i] == order[i];
  }

  /** `add_new_members`: `access_hash.each`, visiting the DNs left in the
      hash in `order`. */
  method AddNewMembers(group: Group, accessHash: map<Dn, AccessLevel>, order: seq<Dn>, usersWithDn: map<Dn, seq<UserId>>)
    requires VisitsEachKeyOnce(accessHash, order)
    modifies group
    ensures group.members == MembersAfterAdding(old(group.members), accessHash, order, usersWithDn)
    // Each DN left that matches a user alone makes that user a member.
    ensures forall dn :: dn in accessHash && UniqueMatch(usersWithDn, dn).Some? ==>
              UniqueMatch(usersWithDn, dn).value in group.members
    // With the level of that DN, unless another DN matches the same user.
    ensures forall dn :: SoleMatch(accessHash, usersWithDn, dn) ==>
              group.members[UniqueMatch(usersWithDn, dn).value] == accessHash[dn]
  {
    ghost var before := group.members;
    for i := 0 to |order|
      invariant group.members == MembersAfterAdding(before, accessHash, order[..i], usersWithDn)
    {
      var dn := order[i];
      MembersAfterAddingStep(before, accessHash, order, usersWithDn, i);
      var users := if dn in usersWithDn then usersWithDn[dn] else [];
      if |users| == 0 {
        // no GitLab user has this identity yet
      } else if |users| > 1 {
        // more than one user has this identity: skipped with a warning
      } else {
        group.AddUser(users[0], accessHash[dn]);
      }
    }
    assert order[..|order|] == order;
    forall dn | dn in accessHash && UniqueMatch(usersWithDn, dn).Some?
      ensures UniqueMatch(usersWithDn, dn).value in group.members
    {
      var k :| 0 <= k < |order| && order[k] == dn;
      MatchedAdded(before, accessHash, order, usersWithDn, k);
    }
    forall dn | SoleMatch(accessHash, usersWithDn, dn)
      ensures group.members[UniqueMatch(usersWithDn, dn).value] == accessHash[dn]
    {
      SoleMatchLevel(before, accessHash, order, usersWithDn, dn);
    }
  }
}
