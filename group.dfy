/**
 * Permission groups: who may see, change and delete a group, and who may
 * add, remove or re-role its members. The group table and the member table
 * are one map from group id to group, each group holding its members by user
 * id (the member table's key is the pair of group and user).
 */
module Group {
  import opened Wrappers

  datatype Role = Owner | Admin | Member

  datatype PermissionGroup = PermissionGroup(
    name: string,
    description: Option<string>,
    ownerId: string,
    isPublic: bool,
    updatedAt: int,
    members: map<string, Role>)

  type Groups = map<string, PermissionGroup>

  datatype Error = NotFound(message: string) | Forbidden(message: string) | Conflict(message: string) | BadRequest(message: string)

  /** A member row as the member operations return it. */
  datatype MemberDto = MemberDto(groupId: string, userId: string, role: Role)

  /** isGroupOwnerOrAdmin: the group's owner, or a member whose role is ADMIN or OWNER; false for a missing group. */
  predicate IsOwnerOrAdmin(gs: Groups, groupId: string, userId: string)
  {
    groupId in gs &&
    (gs[groupId].ownerId == userId ||
     (userId in gs[groupId].members && (gs[groupId].members[userId] == Admin || gs[groupId].members[userId] == Owner)))
  }

  const NotOwnerOrAdmin := "You must be the group owner or admin to perform this action"

  /** validateGroupOwnerOrAdmin as an optional error. */
  function ValidateOwnerOrAdmin(gs: Groups, groupId: string, userId: string): (r: Option<Error>)
    ensures r.None? <==> IsOwnerOrAdmin(gs, groupId, userId)
    ensures r.Some? ==> r.value == Forbidden(NotOwnerOrAdmin)
  {
    if IsOwnerOrAdmin(gs, groupId, userId) then None else Some(Forbidden(NotOwnerOrAdmin))
  }

  /** createGroup: a group without members, public only when asked; the id is drawn by the database. */
  function CreateGroup(gs: Groups, id: string, name: string, description: Option<string>, isPublic: Option<bool>,
                       ownerId: string, now: int): (r: (PermissionGroup, Groups))
    ensures r.0.isPublic <==> isPublic == Some(true)
    ensures r.0.ownerId == ownerId && r.0.members == map[] && r.0.name == name
    ensures r.1 == gs[id := r.0]
  {
    var g := PermissionGroup(name, description, ownerId, isPublic.Some? && isPublic.value, now, map[]);
    (g, gs[id := g])
  }

  /** The owner, a member, and anyone for a public group may see it. */
  predicate MayView(g: PermissionGroup, userId: string)
  {
    g.ownerId == userId || g.isPublic || userId in g.members
  }

  /** getGroup: NotFound for a missing group, Forbidden unless the requester is owner or member or the group is public. */
  function GetGroup(gs: Groups, groupId: string, requestedBy: string): (r: Result<PermissionGroup, Error>)
    ensures groupId !in gs ==> r == Err(NotFound("Group not found"))
    ensures groupId in gs && !MayView(gs[groupId], requestedBy) ==> r == Err(Forbidden("You do not have access to this group"))
    ensures r.Ok? <==> groupId in gs && MayView(gs[groupId], requestedBy)
    ensures r.Ok? ==> r.value == gs[groupId]
  {
    if groupId !in gs then Err(NotFound("Group not found"))
    else if !MayView(gs[groupId], requestedBy) then Err(Forbidden("You do not have access to this group"))
    else Ok(gs[groupId])
  }

  /** An optional field of an update: absent leaves the stored value. */
  function Patch<T>(stored: T, given: Option<T>): T
  {
    if given.Some? then given.value else stored
  }

  /**
   * updateGroup: only the owner or an admin; name, description and
   * visibility change where given, and the time of the change is recorded.
   */
  function UpdateGroup(gs: Groups, groupId: string, name: Option<string>, description: Option<string>,
                       isPublic: Option<bool>, updatedBy: string, now: int): (r: Result<(PermissionGroup, Groups), Error>)
    ensures !IsOwnerOrAdmin(gs, groupId, updatedBy) ==> r == Err(Forbidden(NotOwnerOrAdmin))
    ensures r.Ok? <==> IsOwnerOrAdmin(gs, groupId, updatedBy)
    ensures r.Ok? ==> r.value.1 == gs[groupId := r.value.0]
    ensures r.Ok? ==> var old_ := gs[groupId]; var g := r.value.0;
      && g.ownerId == old_.ownerId && g.members == old_.members && g.updatedAt == now
      && (name.None? ==> g.name == old_.name) && (name.Some? ==> g.name == name.value)
      && (description.None? ==> g.description == old_.description)
      && (isPublic.None? ==> g.isPublic == old_.isPublic) && (isPublic.Some? ==> g.isPublic == isPublic.value)
  {
    var e := ValidateOwnerOrAdmin(gs, groupId, updatedBy);
    if e.Some? then Err(e.value)
    else
      var old_ := gs[groupId];
      var g := old_.(name := Patch(old_.name, name), description := if description.Some? then description else old_.description,
                     isPublic := Patch(old_.isPublic, isPublic), updatedAt := now);
      Ok((g, gs[groupId := g]))
  }

  /** An update of a group that does not exist is refused as Forbidden, not NotFound: the owner-or-admin test fails first. */
  lemma UpdateMissingIsForbidden(gs: Groups, groupId: string, name: Option<string>, description: Option<string>,
                                 isPublic: Option<bool>, updatedBy: string, now: int)
    requires groupId !in gs
    ensures UpdateGroup(gs, groupId, name, description, isPublic, updatedBy, now) == Err(Forbidden(NotOwnerOrAdmin))
  {
  }

  /** deleteGroup: NotFound for a missing group; only the owner may delete it, its members with it. */
  function DeleteGroup(gs: Groups, groupId: string, deletedBy: string): (r: Result<Groups, Error>)
    ensures groupId !in gs ==> r == Err(NotFound("Group not found"))
    ensures groupId in gs && gs[groupId].ownerId != deletedBy ==> r == Err(Forbidden("Only group owner can delete the group"))
    ensures r.Ok? <==> groupId in gs && gs[groupId].ownerId == deletedBy
    ensures r.Ok? ==> r.value == gs - {groupId}
  {
    if groupId !in gs then Err(NotFound("Group not found"))
    else if gs[groupId].ownerId != deletedBy then Err(Forbidden("Only group owner can delete the group"))
    else Ok(gs - {groupId})
  }

  /** An admin who is not the owner cannot delete the group. */
  lemma AdminCannotDelete(gs: Groups, groupId: string, userId: string)
    requires groupId in gs && userId in gs[groupId].members && gs[groupId].members[userId] == Admin
    requires gs[groupId].ownerId != userId
    ensures DeleteGroup(gs, groupId, userId).Err? && IsOwnerOrAdmin(gs, groupId, userId)
  {
  }

  /** getUserGroups: the ids of the groups the user owns and of those the user is a member of (order left out). */
  function UserGroups(gs: Groups, userId: string): (r: (set<string>, set<string>))
    ensures forall id :: id in r.0 <==> id in gs && gs[id].ownerId == userId
    ensures forall id :: id in r.1 <==> id in gs && userId in gs[id].members
  {
    (set id | id in gs && gs[id].ownerId == userId, set id | id in gs && userId in gs[id].members)
  }

  /** getPublicGroups: the ids of the public groups. */
  function PublicGroups(gs: Groups): (r: set<string>)
    ensures forall id :: id in r <==> id in gs && gs[id].isPublic
  {
    set id | id in gs && gs[id].isPublic
  }

  /** Every group the listings show a user is one getGroup lets that user see, and conversely. */
  lemma ListedIsViewable(gs: Groups, userId: string, id: string)
    ensures GetGroup(gs, id, userId).Ok? <==>
      id in UserGroups(gs, userId).0 || id in UserGroups(gs, userId).1 || id in PublicGroups(gs)
  {
  }

  /** Adding to a private group, or with a role other than MEMBER, needs the owner or an admin. */
  predicate AddNeedsAdmin(g: PermissionGroup, role: Option<Role>)
  {
    !g.isPublic || (role.Some? && role.value != Member)
  }

  /**
   * addGroupMember: NotFound for a missing group; a private group needs the
   * owner or an admin, and so does a role other than MEMBER in a public one;
   * an existing member is a Conflict; the role defaults to MEMBER.
   */
  function AddGroupMember(gs: Groups, groupId: string, userId: string, role: Option<Role>, addedBy: string): (r: Result<(MemberDto, Groups), Error>)
    ensures groupId !in gs ==> r == Err(NotFound("Group not found"))
    ensures r.Ok? ==> groupId in gs && userId !in gs[groupId].members
    ensures r.Ok? && !gs[groupId].isPublic ==> IsOwnerOrAdmin(gs, groupId, addedBy)
    ensures r.Ok? && role.Some? && role.value != Member ==> IsOwnerOrAdmin(gs, groupId, addedBy)
    ensures r.Ok? ==> r.value.0 == MemberDto(groupId, userId, if role.Some? then role.value else Member)
    ensures r.Ok? ==> r.value.1 == gs[groupId := gs[groupId].(members := gs[groupId].members[userId := r.value.0.role])]
    ensures groupId in gs && AddNeedsAdmin(gs[groupId], role) && !IsOwnerOrAdmin(gs, groupId, addedBy) ==>
      r == Err(Forbidden(NotOwnerOrAdmin))
    ensures groupId in gs && (AddNeedsAdmin(gs[groupId], role) ==> IsOwnerOrAdmin(gs, groupId, addedBy)) && userId in gs[groupId].members ==>
      r == Err(Conflict("User is already a member of this group"))
    ensures r.Ok? <==> (groupId in gs && userId !in gs[groupId].members &&
      (AddNeedsAdmin(gs[groupId], role) ==> IsOwnerOrAdmin(gs, groupId, addedBy)))
  {
    if groupId !in gs then Err(NotFound("Group not found"))
    else
      var g := gs[groupId];
      var e := if AddNeedsAdmin(g, role) then ValidateOwnerOrAdmin(gs, groupId, addedBy) else None;
      if e.Some? then Err(e.value)
      else if userId in g.members then Err(Conflict("User is already a member of this group"))
      else
        var m := MemberDto(groupId, userId, if role.Some? then role.value else Member);
        Ok((m, gs[groupId := g.(members := g.members[userId := m.role])]))
  }

  /** In a public group anyone may add a new member with the default role, or as MEMBER. */
  lemma PublicAddIsOpen(gs: Groups, groupId: string, userId: string, role: Option<Role>, addedBy: string)
    requires groupId in gs && gs[groupId].isPublic && userId !in gs[groupId].members
    requires role.None? || role == Some(Member)
    ensures AddGroupMember(gs, groupId, userId, role, addedBy).Ok?
  {
  }

  /**
   * removeGroupMember: NotFound for a missing group or a non-member;
   * Forbidden unless removing oneself or acting as owner or admin;
   * BadRequest for the owner.
   */
  function RemoveGroupMember(gs: Groups, groupId: string, userId: string, removedBy: string): (r: Result<Groups, Error>)
    ensures groupId !in gs ==> r == Err(NotFound("Group not found"))
    ensures groupId in gs && userId !in gs[groupId].members ==> r == Err(NotFound("User is not a member of this group"))
    ensures r.Ok? ==> groupId in gs && userId in gs[groupId].members
    ensures r.Ok? ==> userId == removedBy || IsOwnerOrAdmin(gs, groupId, removedBy)
    ensures r.Ok? ==> userId != gs[groupId].ownerId
    ensures r.Ok? ==> r.value == gs[groupId := gs[groupId].(members := gs[groupId].members - {userId})]
    ensures groupId in gs && userId in gs[groupId].members && userId != removedBy && !IsOwnerOrAdmin(gs, groupId, removedBy) ==>
      r == Err(Forbidden("You can only remove yourself or you must be an owner/admin"))
    ensures (groupId in gs && userId in gs[groupId].members && (userId == removedBy || IsOwnerOrAdmin(gs, groupId, removedBy)) &&
             userId == gs[groupId].ownerId) ==> r == Err(BadRequest("Cannot remove the group owner"))
    ensures r.Ok? <==> (groupId in gs && userId in gs[groupId].members &&
      (userId == removedBy || IsOwnerOrAdmin(gs, groupId, removedBy)) && userId != gs[groupId].ownerId)
  {
    if groupId !in gs then Err(NotFound("Group not found"))
    else
      var g := gs[groupId];
      if userId !in g.members then Err(NotFound("User is not a member of this group"))
      else if userId != removedBy && !IsOwnerOrAdmin(gs, groupId, removedBy) then
        Err(Forbidden("You can only remove yourself or you must be an owner/admin"))
      else if g.ownerId == userId then Err(BadRequest("Cannot remove the group owner"))
      else Ok(gs[groupId := g.(members := g.members - {userId})])
  }

  /** The owner's own member row survives every removal, whoever asks. */
  lemma OwnerNeverRemoved(gs: Groups, groupId: string, userId: string, removedBy: string)
    requires groupId in gs && gs[groupId].ownerId in gs[groupId].members
    ensures RemoveGroupMember(gs, groupId, userId, removedBy).Ok? ==>
      var g := RemoveGroupMember(gs, groupId, userId, removedBy).value[groupId];
      g.ownerId == gs[groupId].ownerId && g.ownerId in g.members && g.members[g.ownerId] == gs[groupId].members[g.ownerId]
  {
  }

  /** Adding a new non-owner member and letting them leave gives back the groups as they were. */
  lemma {:induction false} AddThenLeave(gs: Groups, groupId: string, userId: string, role: Option<Role>, addedBy: string)
    requires AddGroupMember(gs, groupId, userId, role, addedBy).Ok?
    requires userId != gs[groupId].ownerId
    ensures RemoveGroupMember(AddGroupMember(gs, groupId, userId, role, addedBy).value.1, groupId, userId, userId) == Ok(gs)
  {
    var g := gs[groupId];
    var gs1 := AddGroupMember(gs, groupId, userId, role, addedBy).value.1;
    var g1 := gs1[groupId];
    assert g1.members - {userId} == g.members;
    assert g1.(members := g1.members - {userId}) == g;
    assert gs1[groupId := g] == gs;
  }

  /**
   * updateGroupMemberRole: NotFound for a missing group or a non-member;
   * only the owner or an admin; BadRequest for the owner's own row.
   */
  function UpdateGroupMemberRole(gs: Groups, groupId: string, userId: string, role: Role, updatedBy: string): (r: Result<(MemberDto, Groups), Error>)
    ensures groupId !in gs ==> r == Err(NotFound("Group not found"))
    ensures groupId in gs && userId !in gs[groupId].members ==> r == Err(NotFound("User is not a member of this group"))
    ensures r.Ok? ==> groupId in gs && userId in gs[groupId].members
    ensures r.Ok? ==> IsOwnerOrAdmin(gs, groupId, updatedBy) && userId != gs[groupId].ownerId
    ensures r.Ok? ==> r.value.0 == MemberDto(groupId, userId, role)
    ensures r.Ok? ==> r.value.1 == gs[groupId := gs[groupId].(members := gs[groupId].members[userId := role])]
    ensures groupId in gs && userId in gs[groupId].members && IsOwnerOrAdmin(gs, groupId, updatedBy) && userId == gs[groupId].ownerId ==>
      r == Err(BadRequest("Cannot change the group owner's role"))
    ensures groupId in gs && userId in gs[groupId].members && !IsOwnerOrAdmin(gs, groupId, updatedBy) ==>
      r == Err(Forbidden(NotOwnerOrAdmin))
    ensures r.Ok? <==> (groupId in gs && userId in gs[groupId].members && IsOwnerOrAdmin(gs, groupId, updatedBy) &&
      userId != gs[groupId].ownerId)
  {
    if groupId !in gs then Err(NotFound("Group not found"))
    else
      var g := gs[groupId];
      if userId !in g.members then Err(NotFound("User is not a member of this group"))
      else
        var e := ValidateOwnerOrAdmin(gs, groupId, updatedBy);
        if e.Some? then Err(e.value)
        else if g.ownerId == userId then Err(BadRequest("Cannot change the group owner's role"))
        else
          var m := MemberDto(groupId, userId, role);
          Ok((m, gs[groupId := g.(members := g.members[userId := role])]))
  }

  /**
   * joinPublicGroup: NotFound for a missing group, Forbidden for a private
   * one, Conflict for an existing member; otherwise the user joins as MEMBER.
   */
  function JoinPublicGroup(gs: Groups, groupId: string, userId: string): (r: Result<(MemberDto, Groups), Error>)
    ensures groupId !in gs ==> r == Err(NotFound("Group not found"))
    ensures groupId in gs && !gs[groupId].isPublic ==> r == Err(Forbidden("This group is not public"))
    ensures groupId in gs && gs[groupId].isPublic && userId in gs[groupId].members ==>
      r == Err(Conflict("You are already a member of this group"))
    ensures r.Ok? ==> r.value.0 == MemberDto(groupId, userId, Member)
  {
    if groupId !in gs then Err(NotFound("Group not found"))
    else
      var g := gs[groupId];
      if !g.isPublic then Err(Forbidden("This group is not public"))
      else if userId in g.members then Err(Conflict("You are already a member of this group"))
      else Ok((MemberDto(groupId, userId, Member), gs[groupId := g.(members := g.members[userId := Member])]))
  }

  /** Joining succeeds exactly when the user could add themselves with the default role, and does the same. */
  lemma {:induction false} JoinIsSelfAdd(gs: Groups, groupId: string, userId: string)
    ensures JoinPublicGroup(gs, groupId, userId).Ok? <==>
      groupId in gs && gs[groupId].isPublic && AddGroupMember(gs, groupId, userId, None, userId).Ok?
    ensures JoinPublicGroup(gs, groupId, userId).Ok? ==>
      JoinPublicGroup(gs, groupId, userId) == AddGroupMember(gs, groupId, userId, None, userId)
  {
    if groupId in gs && gs[groupId].isPublic && userId !in gs[groupId].members {
      assert AddGroupMember(gs, groupId, userId, None, userId).Ok?;
    }
  }

  /** After joining the user may see the group. */
  lemma JoinedMayView(gs: Groups, groupId: string, userId: string)
    requires JoinPublicGroup(gs, groupId, userId).Ok?
    ensures GetGroup(JoinPublicGroup(gs, groupId, userId).value.1, groupId, userId).Ok?
  {
  }
}
