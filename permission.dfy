/**
 * Explicit permissions on content nodes: the ranking of permission levels,
 * the strongest level of a list, the nearest-then-strongest permission a user
 * holds through a node's ancestors, the level check built on it, and the
 * grant, revoke and update operations over an in-memory stand-in for the
 * database tables.
 */
module Permission {
  import opened Wrappers

  datatype Level = Owner | Manage | Edit | Interact | View

  /** The score both the repository and the service give a level: OWNER 5 down to VIEW 1. */
  function Rank(l: Level): (r: int)
    ensures 1 <= r <= 5
  {
    match l
    case Owner => 5
    case Manage => 4
    case Edit => 3
    case Interact => 2
    case View => 1
  }

  /** The position of a level in the ORDER BY of the ancestor query: OWNER 1 up to VIEW 5. */
  function Priority(l: Level): int
  {
    match l
    case Owner => 1
    case Manage => 2
    case Edit => 3
    case Interact => 4
    case View => 5
  }

  /** Different levels have different ranks, so "of maximal rank" names one level. */
  lemma RankInjective(a: Level, b: Level)
    ensures Rank(a) == Rank(b) ==> a == b
  {
  }

  /** Ordering by ascending priority is ordering by descending rank. */
  lemma PriorityReversesRank(a: Level, b: Level)
    ensures Priority(a) < Priority(b) <==> Rank(a) > Rank(b)
  {
  }

  /** OWNER outranks every other level. */
  lemma OwnerIsTop(l: Level)
    ensures Rank(l) <= Rank(Owner) && (Rank(l) == Rank(Owner) ==> l == Owner)
  {
  }

  /** A row of the ExplicitPermission table; a missing column is None, a time is an instant in milliseconds. */
  datatype ExplicitPermission = ExplicitPermission(
    id: string,
    contentNodeId: string,
    userId: Option<string>,
    groupId: Option<string>,
    level: Level,
    grantedBy: Option<string>,
    expiresAt: Option<int>,
    createdAt: int,
    updatedAt: int)

  /** One step of the reduce of getHighestPermissionLevel: the new level wins only with a strictly higher rank. */
  function Keep(best: Option<Level>, l: Level): Option<Level>
  {
    if best.None? || Rank(l) > Rank(best.value) then Some(l) else best
  }

  /**
   * getHighestPermissionLevel: null for no permissions, otherwise a level
   * some permission has and no permission outranks.
   */
  function HighestLevel(ps: seq<ExplicitPermission>): (r: Option<Level>)
    ensures r.None? <==> |ps| == 0
    ensures r.Some? ==> exists i :: 0 <= i < |ps| && ps[i].level == r.value
    ensures r.Some? ==> forall i :: 0 <= i < |ps| ==> Rank(ps[i].level) <= Rank(r.value)
  {
    if |ps| == 0 then None else Keep(HighestLevel(ps[..|ps| - 1]), ps[|ps| - 1].level)
  }

  /** The maximum is independent of the order of the list: it is the one level of maximal rank. */
  lemma HighestLevelIsTheMaximum(ps: seq<ExplicitPermission>, l: Level)
    requires exists i :: 0 <= i < |ps| && ps[i].level == l
    requires forall i :: 0 <= i < |ps| ==> Rank(ps[i].level) <= Rank(l)
    ensures HighestLevel(ps) == Some(l)
  {
    var k :| 0 <= k < |ps| && ps[k].level == l;
    var h := HighestLevel(ps).value;
    assert Rank(l) <= Rank(h);
    RankInjective(h, l);
  }

  // ---------------------------------------------------------------------
  // The inheritance lookup
  // ---------------------------------------------------------------------

  /** A permission joined with the depth of its node above the target; 0 is the target itself. */
  datatype Row = Row(perm: ExplicitPermission, depth: nat)

  /** Not expired at instant now: no expiry, or an expiry after now. */
  predicate Active(p: ExplicitPermission, now: int)
  {
    p.expiresAt.None? || p.expiresAt.value > now
  }

  /** Held by the user directly or through one of the groups; a NULL column matches nothing. */
  predicate Relevant(p: ExplicitPermission, userId: string, groupIds: seq<string>)
  {
    p.userId == Some(userId) || (p.groupId.Some? && p.groupId.value in groupIds)
  }

  /** a comes before b in the query's ORDER BY: a smaller depth, or the same depth and a stronger level. */
  predicate Beats(a: Row, b: Row)
  {
    a.depth < b.depth || (a.depth == b.depth && Priority(a.perm.level) < Priority(b.perm.level))
  }

  /** A row the query can return: on an ancestor at that depth, active and relevant. */
  predicate Candidate(ancestors: seq<(string, nat)>, perms: seq<ExplicitPermission>,
                      userId: string, groupIds: seq<string>, now: int, row: Row)
  {
    && (row.perm.contentNodeId, row.depth) in ancestors
    && row.perm in perms
    && Active(row.perm, now)
    && Relevant(row.perm, userId, groupIds)
  }

  /** The rows of perms that one ancestor contributes, in table order. */
  function RowsAt(a: (string, nat), perms: seq<ExplicitPermission>, userId: string, groupIds: seq<string>, now: int): (r: seq<Row>)
    ensures forall row :: row in r <==>
      row.perm in perms && row.perm.contentNodeId == a.0 && row.depth == a.1
      && Active(row.perm, now) && Relevant(row.perm, userId, groupIds)
  {
    if |perms| == 0 then []
    else
      var p := perms[|perms| - 1];
      var rest := RowsAt(a, perms[..|perms| - 1], userId, groupIds, now);
      assert perms == perms[..|perms| - 1] + [p];
      if p.contentNodeId == a.0 && Active(p, now) && Relevant(p, userId, groupIds)
      then rest + [Row(p, a.1)] else rest
  }

  /** The joined and filtered rows of the query, ancestor by ancestor. */
  function Rows(ancestors: seq<(string, nat)>, perms: seq<ExplicitPermission>, userId: string, groupIds: seq<string>, now: int): (r: seq<Row>)
    ensures forall row :: row in r <==> Candidate(ancestors, perms, userId, groupIds, now, row)
  {
    if |ancestors| == 0 then []
    else
      var a := ancestors[|ancestors| - 1];
      assert ancestors == ancestors[..|ancestors| - 1] + [a];
      Rows(ancestors[..|ancestors| - 1], perms, userId, groupIds, now) + RowsAt(a, perms, userId, groupIds, now)
  }

  /** One step of the selection: a row replaces the best so far only when it comes strictly before it. */
  function Prefer(best: Option<Row>, row: Row): Option<Row>
  {
    if best.None? || Beats(row, best.value) then Some(row) else best
  }

  /**
   * ORDER BY depth, level ... LIMIT 1: no row when there are none, otherwise
   * a row that no row comes before. Rows that tie are left in table order,
   * which the database does not promise.
   */
  function First(rows: seq<Row>): (r: Option<Row>)
    ensures r.None? <==> |rows| == 0
    ensures r.Some? ==> r.value in rows && forall i :: 0 <= i < |rows| ==> !Beats(rows[i], r.value)
  {
    if |rows| == 0 then None else Prefer(First(rows[..|rows| - 1]), rows[|rows| - 1])
  }

  datatype Kind = Explicit | Inherited

  /** The permission as the API returns it. */
  datatype PermissionDto = PermissionDto(
    id: string,
    kind: Kind,
    contentNodeId: string,
    userId: Option<string>,
    groupId: Option<string>,
    level: Level,
    grantedBy: Option<string>,
    expiresAt: Option<int>,
    createdAt: int,
    updatedAt: int)

  /** The DTO of a row found by the ancestor query: inherited exactly when it sits above the target. */
  function QueryDto(row: Row): PermissionDto
  {
    var p := row.perm;
    PermissionDto(p.id, if row.depth > 0 then Inherited else Explicit, p.contentNodeId,
                  p.userId, p.groupId, p.level, p.grantedBy, p.expiresAt, p.createdAt, p.updatedAt)
  }

  /** A string column read back with `|| undefined`: the empty string is dropped too. */
  function Truthy(s: Option<string>): (r: Option<string>)
    ensures r.Some? <==> s.Some? && s.value != ""
    ensures r.Some? ==> r == s
  {
    if s.Some? && s.value != "" then s else None
  }

  /** mapExplicitPermissionToDto with type 'explicit', used for created, found and updated rows. */
  function TableDto(p: ExplicitPermission): PermissionDto
  {
    PermissionDto(p.id, Explicit, p.contentNodeId, Truthy(p.userId), Truthy(p.groupId),
                  p.level, p.grantedBy, p.expiresAt, p.createdAt, p.updatedAt)
  }

  datatype Error = BadRequest(message: string) | NotFound(message: string) | Forbidden(message: string)

  /** A row of GroupMember: the user belongs to the group. */
  datatype Membership = Membership(groupId: string, userId: string)

  /** The ids of the groups the user belongs to. */
  function GroupIdsOf(members: seq<Membership>, userId: string): (r: seq<string>)
    ensures forall g :: g in r <==> Membership(g, userId) in members
  {
    if |members| == 0 then []
    else
      var m := members[|members| - 1];
      assert members == members[..|members| - 1] + [m];
      GroupIdsOf(members[..|members| - 1], userId) + (if m.userId == userId then [m.groupId] else [])
  }

  /**
   * What the database and the runtime supply: the UUID test of the source's
   * own helper, the clock, and the result of the recursive ancestor query
   * for each target node (pairs of ancestor id and depth, the node itself at 0).
   */
  datatype Env = Env(isUuid: string -> bool, now: int, ancestors: string -> seq<(string, nat)>)

  /** The tables the permission operations read and write. */
  datatype Store = Store(nodes: set<string>, groups: set<string>, members: seq<Membership>, perms: seq<ExplicitPermission>)

  /**
   * findUserPermissionWithInheritance: both ids must be UUIDs; otherwise
   * null when no active permission of the user or their groups sits on the
   * node or an ancestor, else the nearest one, strongest at that depth.
   */
  function FindUserPermission(env: Env, st: Store, userId: string, contentNodeId: string): (r: Result<Option<PermissionDto>, Error>)
    ensures !env.isUuid(userId) ==> r == Err(BadRequest("Invalid user ID"))
    ensures env.isUuid(userId) && !env.isUuid(contentNodeId) ==> r == Err(BadRequest("Invalid content node ID"))
    ensures env.isUuid(userId) && env.isUuid(contentNodeId) ==> r.Ok?
    ensures r.Ok? && r.value.None? ==>
      forall row :: !Candidate(env.ancestors(contentNodeId), st.perms, userId, GroupIdsOf(st.members, userId), env.now, row)
    ensures r.Ok? && r.value.Some? ==> exists row ::
      && Candidate(env.ancestors(contentNodeId), st.perms, userId, GroupIdsOf(st.members, userId), env.now, row)
      && r.value.value == QueryDto(row)
      && (r.value.value.kind == Inherited <==> row.depth > 0)
      && forall other :: Candidate(env.ancestors(contentNodeId), st.perms, userId, GroupIdsOf(st.members, userId), env.now, other) ==> !Beats(other, row)
  {
    if !env.isUuid(userId) then Err(BadRequest("Invalid user ID"))
    else if !env.isUuid(contentNodeId) then Err(BadRequest("Invalid content node ID"))
    else
      var groupIds := GroupIdsOf(st.members, userId);
      var rows := Rows(env.ancestors(contentNodeId), st.perms, userId, groupIds, env.now);
      var best := First(rows);
      if best.None? then
        assert forall row :: !Candidate(env.ancestors(contentNodeId), st.perms, userId, groupIds, env.now, row) by {
          forall row ensures !Candidate(env.ancestors(contentNodeId), st.perms, userId, groupIds, env.now, row) {
            assert row !in rows;
          }
        }
        Ok(None)
      else
        var row := best.value;
        assert Candidate(env.ancestors(contentNodeId), st.perms, userId, groupIds, env.now, row);
        assert forall other :: Candidate(env.ancestors(contentNodeId), st.perms, userId, groupIds, env.now, other) ==> !Beats(other, row) by {
          forall other | Candidate(env.ancestors(contentNodeId), st.perms, userId, groupIds, env.now, other)
            ensures !Beats(other, row)
          {
            var i :| 0 <= i < |rows| && rows[i] == other;
          }
        }
        Ok(Some(QueryDto(row)))
  }

  /**
   * checkUserPermission: an invalid id fails as the lookup does; no
   * permission gives false; otherwise the held level's score is compared
   * with the required one's. (The source's undefined-score branch cannot
   * arise with the closed enumeration of levels.)
   */
  function CheckUserPermission(env: Env, st: Store, userId: string, contentNodeId: string, required: Level): (r: Result<bool, Error>)
    ensures r.Err? <==> FindUserPermission(env, st, userId, contentNodeId).Err?
    ensures r.Err? ==> r.error == FindUserPermission(env, st, userId, contentNodeId).error
    ensures r == Ok(true) <==> exists p: PermissionDto ::
      FindUserPermission(env, st, userId, contentNodeId) == Ok(Some(p)) && Rank(p.level) >= Rank(required)
  {
    match FindUserPermission(env, st, userId, contentNodeId)
    case Err(e) => Err(e)
    case Ok(None) => Ok(false)
    case Ok(Some(p)) => Ok(Rank(p.level) >= Rank(required))
  }

  /** A user with no permission on the node or its ancestors is refused every level. */
  lemma NoPermissionNoAccess(env: Env, st: Store, userId: string, contentNodeId: string, required: Level)
    requires FindUserPermission(env, st, userId, contentNodeId) == Ok(None)
    ensures CheckUserPermission(env, st, userId, contentNodeId, required) == Ok(false)
  {
  }

  /** Passing a level implies passing every weaker one. */
  lemma CheckMonotone(env: Env, st: Store, userId: string, contentNodeId: string, strong: Level, weak: Level)
    requires Rank(weak) <= Rank(strong)
    ensures CheckUserPermission(env, st, userId, contentNodeId, strong) == Ok(true) ==>
            CheckUserPermission(env, st, userId, contentNodeId, weak) == Ok(true)
  {
  }

  /** OWNER passes the check for every level, and VIEW is passed by any permission found. */
  lemma OwnerPassesAll(env: Env, st: Store, userId: string, contentNodeId: string, p: PermissionDto, required: Level)
    requires FindUserPermission(env, st, userId, contentNodeId) == Ok(Some(p))
    ensures p.level == Owner ==> CheckUserPermission(env, st, userId, contentNodeId, required) == Ok(true)
    ensures CheckUserPermission(env, st, userId, contentNodeId, View) == Ok(true)
  {
  }

  // ---------------------------------------------------------------------
  // Grant, revoke, update
  // ---------------------------------------------------------------------

  /** A request field is given when it is truthy: present and not the empty string. */
  predicate Given(s: Option<string>)
  {
    s.Some? && s.value != ""
  }

  datatype GrantRequest = GrantRequest(contentNodeId: string, userId: Option<string>, groupId: Option<string>,
                                       level: Level, expiresAt: Option<int>)

  /** The row grantPermission creates: the user id as sent, the group only when given. */
  function Granted(req: GrantRequest, grantedBy: Option<string>, id: string, now: int): ExplicitPermission
  {
    ExplicitPermission(id, req.contentNodeId, req.userId, if Given(req.groupId) then req.groupId else None,
                       req.level, grantedBy, req.expiresAt, now, now)
  }

  /** The validation of grantPermission, in the order of the source, up to the creation of the row. */
  function GrantError(env: Env, st: Store, req: GrantRequest, grantedBy: Option<string>): Option<Error>
  {
    if !Given(req.userId) && !Given(req.groupId) then Some(BadRequest("Either userId or groupId must be provided"))
    else if Given(req.userId) && Given(req.groupId) then Some(BadRequest("Cannot specify both userId and groupId"))
    else if req.contentNodeId !in st.nodes then Some(NotFound("Content node not found"))
    else if grantedBy.Some? && CheckUserPermission(env, st, grantedBy.value, req.contentNodeId, Manage).Err? then
      Some(CheckUserPermission(env, st, grantedBy.value, req.contentNodeId, Manage).error)
    else if Given(req.groupId) && req.groupId.value !in st.groups then Some(NotFound("Permission group not found"))
    else None
  }

  /**
   * grantPermission as written: the MANAGE check of the granting user is
   * awaited only for its exceptions; its answer is discarded. The database
   * draws the new row's id; the model takes it as a parameter.
   */
  function GrantPermission(env: Env, st: Store, req: GrantRequest, grantedBy: Option<string>, id: string): (r: Result<(PermissionDto, Store), Error>)
    ensures !Given(req.userId) && !Given(req.groupId) ==> r == Err(BadRequest("Either userId or groupId must be provided"))
    ensures Given(req.userId) && Given(req.groupId) ==> r == Err(BadRequest("Cannot specify both userId and groupId"))
    ensures Given(req.userId) != Given(req.groupId) && req.contentNodeId !in st.nodes ==> r == Err(NotFound("Content node not found"))
    ensures Given(req.userId) != Given(req.groupId) && req.contentNodeId in st.nodes && grantedBy.Some? &&
            CheckUserPermission(env, st, grantedBy.value, req.contentNodeId, Manage).Err? ==>
            r == Err(CheckUserPermission(env, st, grantedBy.value, req.contentNodeId, Manage).error)
    ensures Given(req.userId) != Given(req.groupId) && req.contentNodeId in st.nodes &&
            (grantedBy.Some? ==> CheckUserPermission(env, st, grantedBy.value, req.contentNodeId, Manage).Ok?) ==>
            (r.Err? <==> Given(req.groupId) && req.groupId.value !in st.groups) &&
            (r.Err? ==> r == Err(NotFound("Permission group not found")))
    ensures r.Ok? ==> (Given(req.userId) != Given(req.groupId)) && req.contentNodeId in st.nodes
    ensures r.Ok? && Given(req.groupId) ==> req.groupId.value in st.groups
    ensures r.Ok? ==> r.value.1 == st.(perms := st.perms + [Granted(req, grantedBy, id, env.now)])
    ensures r.Ok? ==> r.value.0.kind == Explicit && r.value.0.level == req.level && r.value.0.contentNodeId == req.contentNodeId
    ensures r.Ok? ==> r.value.0.userId == (if Given(req.userId) then req.userId else None)
    ensures r.Ok? ==> r.value.0.groupId == (if Given(req.groupId) then req.groupId else None)
  {
    var e := GrantError(env, st, req, grantedBy);
    if e.Some? then Err(e.value)
    else
      var p := Granted(req, grantedBy, id, env.now);
      Ok((TableDto(p), st.(perms := st.perms + [p])))
  }

  /** The model of grantPermission with the check's answer enforced: a refused grant is Forbidden. */
  function GrantPermissionChecked(env: Env, st: Store, req: GrantRequest, grantedBy: Option<string>, id: string): (r: Result<(PermissionDto, Store), Error>)
    ensures r.Ok? ==> grantedBy.None? || CheckUserPermission(env, st, grantedBy.value, req.contentNodeId, Manage) == Ok(true)
    ensures r.Ok? ==> r == GrantPermission(env, st, req, grantedBy, id)
    ensures GrantPermission(env, st, req, grantedBy, id).Err? ==> r == GrantPermission(env, st, req, grantedBy, id)
  {
    var e := GrantError(env, st, req, grantedBy);
    if e.Some? then Err(e.value)
    else if grantedBy.Some? && CheckUserPermission(env, st, grantedBy.value, req.contentNodeId, Manage) == Ok(false) then
      Err(Forbidden("Insufficient permission"))
    else GrantPermission(env, st, req, grantedBy, id)
  }

  /** Every UUID is valid, every node is its own only ancestor, and the clock reads 0. */
  function PlainEnv(): Env
  {
    Env(s => true, 0, n => [(n, 0)])
  }

  /** One node, one (unrelated) group, and no permissions at all. */
  function EmptyStore(): Store
  {
    Store({"node"}, {}, [], [])
  }

  /** A user who holds nothing on the node still has a grant of OWNER to someone else accepted. */
  lemma GrantIgnoresCheck()
    ensures CheckUserPermission(PlainEnv(), EmptyStore(), "stranger", "node", Manage) == Ok(false)
    ensures GrantPermission(PlainEnv(), EmptyStore(), GrantRequest("node", Some("friend"), None, Owner, None), Some("stranger"), "p1").Ok?
  {
    var env, st := PlainEnv(), EmptyStore();
    assert forall row :: !Candidate(env.ancestors("node"), st.perms, "stranger", GroupIdsOf(st.members, "stranger"), env.now, row);
  }

  /** With the check enforced the same grant is refused. */
  lemma CheckedGrantRefusesStranger()
    ensures GrantPermissionChecked(PlainEnv(), EmptyStore(), GrantRequest("node", Some("friend"), None, Owner, None), Some("stranger"), "p1")
            == Err(Forbidden("Insufficient permission"))
  {
    GrantIgnoresCheck();
  }

  datatype RevokeRequest = RevokeRequest(contentNodeId: string, userId: Option<string>, groupId: Option<string>)

  /** The deleteMany filter of revokePermission: an absent field constrains nothing. */
  predicate Matches(req: RevokeRequest, p: ExplicitPermission)
  {
    && p.contentNodeId == req.contentNodeId
    && (req.userId.None? || p.userId == req.userId)
    && (req.groupId.None? || p.groupId == req.groupId)
  }

  /** The permissions the filter keeps, in order. */
  function Unmatched(req: RevokeRequest, ps: seq<ExplicitPermission>): (r: seq<ExplicitPermission>)
    ensures |r| <= |ps|
    ensures forall p :: p in r <==> p in ps && !Matches(req, p)
  {
    if |ps| == 0 then []
    else
      assert ps == ps[..|ps| - 1] + [ps[|ps| - 1]];
      Unmatched(req, ps[..|ps| - 1]) + (if Matches(req, ps[|ps| - 1]) then [] else [ps[|ps| - 1]])
  }

  /** The count deleteMany reports. */
  function CountMatched(req: RevokeRequest, ps: seq<ExplicitPermission>): (n: nat)
    ensures n == |ps| - |Unmatched(req, ps)|
    ensures n == 0 <==> forall i :: 0 <= i < |ps| ==> !Matches(req, ps[i])
  {
    if |ps| == 0 then 0
    else
      assert ps == ps[..|ps| - 1] + [ps[|ps| - 1]];
      CountMatched(req, ps[..|ps| - 1]) + (if Matches(req, ps[|ps| - 1]) then 1 else 0)
  }

  /**
   * revokePermission: neither target given is BadRequest (both given is
   * allowed); the MANAGE check is awaited only for its exceptions; then all
   * matching rows are deleted, and deleting none is NotFound.
   */
  function RevokePermission(env: Env, st: Store, req: RevokeRequest, revokedBy: string): (r: Result<(nat, Store), Error>)
    ensures !Given(req.userId) && !Given(req.groupId) ==> r == Err(BadRequest("Either userId or groupId must be provided"))
    ensures r.Ok? ==> r.value.0 >= 1 && r.value.0 + |r.value.1.perms| == |st.perms|
    ensures r.Ok? ==> r.value.1 == st.(perms := Unmatched(req, st.perms))
    ensures (Given(req.userId) || Given(req.groupId)) && CheckUserPermission(env, st, revokedBy, req.contentNodeId, Manage).Ok? ==>
      (r == Err(NotFound("No permissions found to revoke")) <==> forall i :: 0 <= i < |st.perms| ==> !Matches(req, st.perms[i]))
    ensures (Given(req.userId) || Given(req.groupId)) && CheckUserPermission(env, st, revokedBy, req.contentNodeId, Manage).Err? ==>
      r == Err(CheckUserPermission(env, st, revokedBy, req.contentNodeId, Manage).error)
    ensures r.Ok? <==> ((Given(req.userId) || Given(req.groupId)) && CheckUserPermission(env, st, revokedBy, req.contentNodeId, Manage).Ok? &&
      exists i :: 0 <= i < |st.perms| && Matches(req, st.perms[i]))
  {
    if !Given(req.userId) && !Given(req.groupId) then Err(BadRequest("Either userId or groupId must be provided"))
    else
      var check := CheckUserPermission(env, st, revokedBy, req.contentNodeId, Manage);
      if check.Err? then Err(check.error)
      else
        var count := CountMatched(req, st.perms);
        if count == 0 then Err(NotFound("No permissions found to revoke"))
        else Ok((count, st.(perms := Unmatched(req, st.perms))))
  }

  /** A revoke that names both a user and a group matches no row granted by grantPermission to one of them. */
  lemma RevokeBothMatchesNoGrant(req: RevokeRequest, g: GrantRequest, grantedBy: Option<string>, id: string, now: int)
    requires Given(req.userId) && Given(req.groupId)
    requires Given(g.userId) != Given(g.groupId)
    ensures !Matches(req, Granted(g, grantedBy, id, now))
  {
  }

  /** The index of the first row with that id, if any. */
  function IndexOf(ps: seq<ExplicitPermission>, id: string): (r: Option<nat>)
    ensures r.None? <==> forall i :: 0 <= i < |ps| ==> ps[i].id != id
    ensures r.Some? ==> r.value < |ps| && ps[r.value].id == id && forall i :: 0 <= i < r.value ==> ps[i].id != id
  {
    if |ps| == 0 then None
    else if ps[0].id == id then Some(0)
    else
      var t := IndexOf(ps[1..], id);
      if t.None? then None else Some(t.value + 1)
  }

  /** The permission after update: the new level, the new expiry when one is given, updatedAt set to now. */
  function Updated(p: ExplicitPermission, level: Level, expiresAt: Option<int>, now: int): ExplicitPermission
  {
    p.(level := level, expiresAt := if expiresAt.Some? then expiresAt else p.expiresAt, updatedAt := now)
  }

  /**
   * updatePermission: an unknown id is NotFound; the MANAGE check is awaited
   * only for its exceptions; then that row alone is updated.
   */
  function UpdatePermission(env: Env, st: Store, id: string, level: Level, expiresAt: Option<int>, updatedBy: string): (r: Result<(PermissionDto, Store), Error>)
    ensures (forall i :: 0 <= i < |st.perms| ==> st.perms[i].id != id) ==> r == Err(NotFound("Permission not found"))
    ensures r.Ok? ==> |r.value.1.perms| == |st.perms| && r.value.1.nodes == st.nodes && r.value.1.groups == st.groups
    ensures r.Ok? ==> exists k :: (0 <= k < |st.perms| && st.perms[k].id == id
      && r.value.1.perms == st.perms[k := Updated(st.perms[k], level, expiresAt, env.now)]
      && r.value.0 == TableDto(r.value.1.perms[k]))
    ensures r.Ok? ==> r.value.0.level == level && r.value.0.id == id && r.value.0.updatedAt == env.now
    ensures IndexOf(st.perms, id).Some? ==>
      var check := CheckUserPermission(env, st, updatedBy, st.perms[IndexOf(st.perms, id).value].contentNodeId, Manage);
      (check.Err? ==> r == Err(check.error)) && (r.Ok? <==> check.Ok?)
  {
    var k := IndexOf(st.perms, id);
    if k.None? then Err(NotFound("Permission not found"))
    else
      var p := st.perms[k.value];
      var check := CheckUserPermission(env, st, updatedBy, p.contentNodeId, Manage);
      if check.Err? then Err(check.error)
      else
        var q := Updated(p, level, expiresAt, env.now);
        Ok((TableDto(q), st.(perms := st.perms[k.value := q])))
  }

  /** Updating without an expiry keeps the old one; with one, it replaces it. */
  lemma UpdateExpiry(p: ExplicitPermission, level: Level, expiresAt: Option<int>, now: int)
    ensures Updated(p, level, expiresAt, now).expiresAt == (if expiresAt.None? then p.expiresAt else expiresAt)
    ensures Updated(p, level, expiresAt, now).(level := p.level, expiresAt := p.expiresAt, updatedAt := p.updatedAt) == p
  {
  }
}
