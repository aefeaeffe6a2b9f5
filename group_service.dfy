/**
 * The group service: creating, updating and deleting groups and managing
 * their membership rows, with the admin checks, the 256-member cap, the
 * last-admin guard on self-removal and role validation. Each operation is a
 * method over the shared tables; the tables it leaves behind are stated as
 * functions of the tables it started from, and the lemmas at the end are
 * about those functions.
 */
module GroupService {
  import opened Wrappers
  import opened Tables

  const MaxMembers: nat := 256

  datatype GroupError =
    | TooManyMembers   // "maximum 256 members allowed"
    | GroupFull        // "group has reached maximum capacity"
    | NotAdmin         // "only admins can …"
    | AlreadyMember    // "user is already a member"
    | OnlyAdmin        // "cannot remove the only admin"
    | InvalidRole      // "invalid role"
    | GroupNotFound    // the group row lookup failed
    | WriteFailed      // a statement of a transaction failed; it was rolled back

  /** The keys of the membership rows of group `g`: what AddMember's cap check counts. */
  function RowsOf(members: map<Id, GroupMember>, g: Id): set<Id> {
    set k | k in members && members[k].groupId == g
  }

  /** The keys of the admin rows of group `g` (what the self-removal guard counts). */
  function AdminRowsOf(members: map<Id, GroupMember>, g: Id): set<Id> {
    set k | k in members && members[k].groupId == g && members[k].role == AdminRole
  }

  /** User `u` has an admin row in group `g`: the check that guards every change to a group. */
  predicate IsAdmin(members: map<Id, GroupMember>, g: Id, u: Id) {
    exists k :: k in members && members[k] == GroupMember(g, u, AdminRole)
  }

  /** User `u` has some row in group `g`: the existing-member check of AddMember. */
  predicate IsMember(members: map<Id, GroupMember>, g: Id, u: Id) {
    exists k :: k in members && members[k].groupId == g && members[k].userId == u
  }

  /**
   * How the group queries agree: the counted rows are rows of the table, the
   * admin rows are some of them, there are none exactly when nobody passes
   * the admin check, every admin is a member, and a member is someone owning
   * one of the counted rows.
   */
  lemma GroupQueriesAgree(members: map<Id, GroupMember>, g: Id, u: Id)
    ensures AdminRowsOf(members, g) <= RowsOf(members, g) <= members.Keys
    ensures AdminRowsOf(members, g) == {} <==> forall v :: !IsAdmin(members, g, v)
    ensures IsAdmin(members, g, u) ==> IsMember(members, g, u)
    ensures IsMember(members, g, u) <==> exists k :: k in RowsOf(members, g) && members[k].userId == u
  {
    var r := AdminRowsOf(members, g);
    forall v | IsAdmin(members, g, v)
      ensures r != {}
    {
      var k :| k in members && members[k] == GroupMember(g, v, AdminRole);
      assert k in r;
    }
    if r != {} {
      var k :| k in r;
      assert members[k] == GroupMember(g, members[k].userId, AdminRole);
      assert IsAdmin(members, g, members[k].userId);
    }
    if IsMember(members, g, u) {
      var k :| k in members && members[k].groupId == g && members[k].userId == u;
      assert k in RowsOf(members, g);
    }
  }

  /**
   * The "member" rows CreateGroup writes for the listed ids: one per entry
   * other than the creator, in list order, duplicates included.
   */
  function MemberRows(g: Id, creator: Id, ids: seq<Id>): seq<GroupMember> {
    if ids == [] then []
    else
      var rest := MemberRows(g, creator, ids[..|ids| - 1]);
      if ids[|ids| - 1] == creator then rest else rest + [GroupMember(g, ids[|ids| - 1], MemberRole)]
  }

  /**
   * There is one member row per listed entry other than the creator, and
   * each is a "member" row of the group for someone other than the creator.
   */
  lemma {:induction false} MemberRowsShape(g: Id, creator: Id, ids: seq<Id>)
    ensures |MemberRows(g, creator, ids)| == |ids| - multiset(ids)[creator]
    ensures forall i :: 0 <= i < |MemberRows(g, creator, ids)| ==>
      MemberRows(g, creator, ids)[i].groupId == g && MemberRows(g, creator, ids)[i].role == MemberRole && MemberRows(g, creator, ids)[i].userId != creator
  {
    if ids != [] {
      MemberRowsShape(g, creator, ids[..|ids| - 1]);
      assert ids == ids[..|ids| - 1] + [ids[|ids| - 1]];
    }
  }

  /** All rows a new group starts with: the creator's admin row, then the member rows. */
  function InitialRows(g: Id, creator: Id, ids: seq<Id>): seq<GroupMember> {
    [GroupMember(g, creator, AdminRole)] + MemberRows(g, creator, ids)
  }

  /** The keys start, start + 1, …, start + n - 1. */
  function KeyRange(start: Id, n: nat): set<Id> {
    set k: Id | start <= k < start + n && InRange(k, start, n)
  }

  predicate InRange(k: Id, start: Id, n: nat) {
    start <= k < start + n
  }

  /** `m` with `rows` stored under the consecutive keys start, start + 1, … */
  function InsertRows(m: map<Id, GroupMember>, start: Id, rows: seq<GroupMember>): map<Id, GroupMember> {
    if rows == [] then m
    else InsertRows(m, start, rows[..|rows| - 1])[start + |rows| - 1 := rows[|rows| - 1]]
  }

  /** The inserted rows sit at their keys and every other row is kept. */
  lemma {:induction false} InsertRowsContent(m: map<Id, GroupMember>, start: Id, rows: seq<GroupMember>)
    ensures InsertRows(m, start, rows).Keys == m.Keys + KeyRange(start, |rows|)
    ensures forall k: Id :: InRange(k, start, |rows|) ==> InsertRows(m, start, rows)[k] == rows[k - start]
    ensures forall k :: k in m && !InRange(k, start, |rows|) ==> InsertRows(m, start, rows)[k] == m[k]
  {
    if rows != [] {
      var n := |rows| - 1;
      InsertRowsContent(m, start, rows[..n]);
      assert KeyRange(start, |rows|) == KeyRange(start, n) + {start + n};
    }
  }

  /** The statements of CreateGroup's transaction: group, admin row, member rows, chat, commit. */
  function CreateGroupStatements(creator: Id, ids: seq<Id>): int {
    4 + |ids| - multiset(ids)[creator]
  }

  /** A transaction of `n` statements fails when the failing statement is one of them. */
  predicate FailsWithin(failAt: Option<nat>, n: nat) {
    failAt.Some? && failAt.value < n
  }

  /** The membership table without any row of user `u` in group `g`. */
  function WithoutUser(m: map<Id, GroupMember>, g: Id, u: Id): (r: map<Id, GroupMember>)
    ensures r.Keys <= m.Keys && !IsMember(r, g, u)
    ensures forall k :: k in m && (m[k].groupId != g || m[k].userId != u) ==> k in r && r[k] == m[k]
  {
    map k | k in m && (m[k].groupId != g || m[k].userId != u) :: m[k]
  }

  /** The membership table without any row of group `g`. */
  function WithoutGroup(m: map<Id, GroupMember>, g: Id): (r: map<Id, GroupMember>)
    ensures r.Keys <= m.Keys && RowsOf(r, g) == {}
    ensures forall k :: k in m && m[k].groupId != g ==> k in r && r[k] == m[k]
  {
    map k | k in m && m[k].groupId != g :: m[k]
  }

  /** The chat table without the chats of group `g`. */
  function WithoutGroupChats(chats: map<Id, Chat>, g: Id): (r: map<Id, Chat>)
    ensures r.Keys <= chats.Keys && forall k :: k in r ==> r[k].groupId != Some(g)
    ensures forall k :: k in chats && chats[k].groupId != Some(g) ==> k in r && r[k] == chats[k]
  {
    map k | k in chats && chats[k].groupId != Some(g) :: chats[k]
  }

  /** Every row of user `u` in group `g` gets role `role`; nothing else changes. */
  function WithRole(m: map<Id, GroupMember>, g: Id, u: Id, role: string): (r: map<Id, GroupMember>)
    ensures r.Keys == m.Keys
    ensures forall k :: k in m && m[k].groupId == g && m[k].userId == u ==> r[k] == GroupMember(g, u, role)
    ensures forall k :: k in m && (m[k].groupId != g || m[k].userId != u) ==> r[k] == m[k]
  {
    map k | k in m :: if m[k].groupId == g && m[k].userId == u then m[k].(role := role) else m[k]
  }

  /** The fields an update may set; an absent field is left as it is. */
  datatype GroupUpdate = GroupUpdate(name: Option<string>, description: Option<string>, icon: Option<string>)

  function Apply(grp: Group, u: GroupUpdate): Group {
    grp.(name := if u.name.Some? then u.name.value else grp.name,
         description := if u.description.Some? then u.description.value else grp.description,
         icon := if u.icon.Some? then u.icon.value else grp.icon)
  }

  lemma InsertRowsSnoc(m: map<Id, GroupMember>, start: Id, rows: seq<GroupMember>, x: GroupMember)
    ensures InsertRows(m, start, rows + [x]) == InsertRows(m, start, rows)[start + |rows| := x]
  {
    assert (rows + [x])[..|rows|] == rows;
  }

  lemma MemberRowsSnoc(g: Id, creator: Id, ids: seq<Id>, i: nat)
    requires i < |ids|
    ensures MemberRows(g, creator, ids[..i + 1])
         == MemberRows(g, creator, ids[..i]) + (if ids[i] == creator then [] else [GroupMember(g, ids[i], MemberRole)])
  {
    assert ids[..i + 1][..i] == ids[..i];
  }

  /**
   * The loop of CreateGroup over the listed ids: a member row for every id
   * other than the creator, each insert being the next statement of the
   * transaction, the first of them statement 2. Reports whether one failed.
   */
  method InsertMemberRows(db: Database, gid: Id, creator: Id, ids: seq<Id>, failAt: Option<nat>) returns (failed: bool)
    requires db.Valid() && gid < db.nextGroup
    requires !FailsWithin(failAt, 2)
    modifies db`members, db`nextMember
    ensures db.Valid() && db.nextMember >= old(db.nextMember)
    ensures failed <==> FailsWithin(failAt, 2 + |MemberRows(gid, creator, ids)|)
    ensures !failed ==> db.members == InsertRows(old(db.members), old(db.nextMember), MemberRows(gid, creator, ids))
  {
    ghost var base, start := db.members, db.nextMember;
    var step: nat := 2;
    var i := 0;
    ghost var rows: seq<GroupMember> := [];
    assert ids[..0] == [];
    while i < |ids|
      invariant 0 <= i <= |ids|
      invariant rows == MemberRows(gid, creator, ids[..i])
      invariant step == 2 + |rows| && !FailsWithin(failAt, step)
      invariant db.members == InsertRows(base, start, rows) && db.nextMember == start + |rows|
      invariant db.Valid() && db.nextGroup == old(db.nextGroup)
    {
      failed, step, rows := InsertMemberRow(db, gid, creator, ids, i, failAt, step, base, start, rows);
      if failed {
        return;
      }
      i := i + 1;
    }
    assert ids[..i] == ids;
    return false;
  }

  /**
   * One turn of the loop of CreateGroup: entry `i` is skipped when it is the
   * creator, and otherwise inserted as statement `step`, unless that is the
   * statement that fails.
   */
  method InsertMemberRow(db: Database, gid: Id, creator: Id, ids: seq<Id>, i: nat, failAt: Option<nat>, step: nat,
                         ghost base: map<Id, GroupMember>, ghost start: Id, ghost rows: seq<GroupMember>)
    returns (failed: bool, step': nat, ghost rows': seq<GroupMember>)
    requires i < |ids| && db.Valid() && gid < db.nextGroup
    requires rows == MemberRows(gid, creator, ids[..i])
    requires step == 2 + |rows| && !FailsWithin(failAt, step)
    requires db.members == InsertRows(base, start, rows) && db.nextMember == start + |rows|
    modifies db`members, db`nextMember
    ensures db.Valid() && db.nextMember >= old(db.nextMember)
    ensures failed ==> FailsWithin(failAt, 2 + |MemberRows(gid, creator, ids)|)
    ensures !failed ==> rows' == MemberRows(gid, creator, ids[..i + 1])
    ensures !failed ==> step' == 2 + |rows'| && !FailsWithin(failAt, step')
    ensures !failed ==> db.members == InsertRows(base, start, rows') && db.nextMember == start + |rows'|
  {
    if ids[i] == creator {
      MemberRowsSnoc(gid, creator, ids, i);
      return false, step, rows;
    }
    if failAt == Some(step) {
      FailureInsideRun(gid, creator, ids, i, failAt);
      return true, step, rows;
    }
    var row := GroupMember(gid, ids[i], MemberRole);
    MemberRowsSnoc(gid, creator, ids, i);
    AppendMemberRow(db, row, base, start, rows);
    return false, step + 1, rows + [row];
  }

  /**
   * A failure at the insert of entry `i` is a failure within the statements
   * of the whole loop: the rows before it and its own are a prefix of all rows.
   */
  lemma FailureInsideRun(g: Id, creator: Id, ids: seq<Id>, i: nat, failAt: Option<nat>)
    requires i < |ids| && ids[i] != creator
    requires failAt == Some(2 + |MemberRows(g, creator, ids[..i])|)
    ensures FailsWithin(failAt, 2 + |MemberRows(g, creator, ids)|)
  {
    MemberRowsSnoc(g, creator, ids, i);
    MemberRowsGrow(g, creator, ids, i + 1);
  }

  /** One more INSERT into the run of rows that started at key `start`. */
  method AppendMemberRow(db: Database, row: GroupMember, ghost base: map<Id, GroupMember>, ghost start: Id,
                         ghost prefix: seq<GroupMember>)
    requires db.Valid() && row.groupId < db.nextGroup
    requires db.members == InsertRows(base, start, prefix) && db.nextMember == start + |prefix|
    modifies db`members, db`nextMember
    ensures db.Valid()
    ensures db.members == InsertRows(base, start, prefix + [row]) && db.nextMember == start + |prefix| + 1
  {
    InsertRowsSnoc(base, start, prefix, row);
    var _ := db.CreateMemberRow(row);
  }

  /** Inserting a run of rows is inserting its first row, then the rest. */
  lemma {:induction false} InsertRowsCons(m: map<Id, GroupMember>, start: Id, x: GroupMember, rows: seq<GroupMember>)
    ensures InsertRows(m, start, [x] + rows) == InsertRows(m[start := x], start + 1, rows)
  {
    if rows != [] {
      var n := |rows| - 1;
      InsertRowsCons(m, start, x, rows[..n]);
      assert ([x] + rows)[..|[x] + rows| - 1] == [x] + rows[..n];
    }
  }

  /** The member rows of a prefix are no more than those of the whole list. */
  lemma MemberRowsGrow(g: Id, creator: Id, ids: seq<Id>, i: nat)
    requires i <= |ids|
    ensures |MemberRows(g, creator, ids[..i])| <= |MemberRows(g, creator, ids)|
  {
    MemberRowsShape(g, creator, ids[..i]);
    MemberRowsShape(g, creator, ids);
    assert ids == ids[..i] + ids[i..];
    assert multiset(ids)[creator] == multiset(ids[..i])[creator] + multiset(ids[i..])[creator];
    assert multiset(ids[i..])[creator] <= |ids[i..]|;
  }

  /**
   * CreateGroup: refuse more than 256 listed ids before writing anything;
   * otherwise, in one transaction, insert the group, the creator's admin
   * row, a member row per listed id other than the creator and the group's
   * chat. `failAt` names the statement of the transaction that fails, if
   * any; a failure rolls every table back (the id sequences stay advanced).
   */
  method CreateGroup(db: Database, name: string, description: string, icon: string, createdBy: Id,
                     memberIDs: seq<Id>, failAt: Option<nat>) returns (r: Result<Id, GroupError>)
    requires db.Valid()
    modifies db`groups, db`members, db`chats, db`nextGroup, db`nextMember, db`nextChat
    ensures db.Valid()
    ensures |memberIDs| > MaxMembers ==> r == Err(TooManyMembers)
    ensures |memberIDs| > MaxMembers ==> db.nextGroup == old(db.nextGroup) && db.nextMember == old(db.nextMember) && db.nextChat == old(db.nextChat)
    ensures r.Ok? <==> |memberIDs| <= MaxMembers && !FailsWithin(failAt, CreateGroupStatements(createdBy, memberIDs))
    ensures r.Err? ==> db.groups == old(db.groups) && db.members == old(db.members) && db.chats == old(db.chats)
    ensures r.Err? && |memberIDs| <= MaxMembers ==> r == Err(WriteFailed)
    ensures r.Ok? ==>
      && r.value == old(db.nextGroup) && r.value !in old(db.groups)
      && db.groups == old(db.groups)[r.value := Group(name, description, icon, createdBy)]
      && db.members == InsertRows(old(db.members), old(db.nextMember), InitialRows(r.value, createdBy, memberIDs))
      && db.chats == old(db.chats)[old(db.nextChat) := Chat("group", None, None, Some(r.value), None)]
  {
    if |memberIDs| > MaxMembers {
      return Err(TooManyMembers);
    }
    var groups0, members0, chats0 := db.groups, db.members, db.chats;
    var gid, failed := RunCreateGroupStatements(db, name, description, icon, createdBy, memberIDs, failAt);
    if failed {
      db.groups, db.members, db.chats := groups0, members0, chats0;
      return Err(WriteFailed);
    }
    return Ok(gid);
  }

  /**
   * The statements of CreateGroup's transaction, run in order up to the
   * first that fails; undoing them is left to the caller.
   */
  method RunCreateGroupStatements(db: Database, name: string, description: string, icon: string, createdBy: Id,
                                  memberIDs: seq<Id>, failAt: Option<nat>) returns (gid: Id, failed: bool)
    requires db.Valid()
    modifies db`groups, db`members, db`chats, db`nextGroup, db`nextMember, db`nextChat
    ensures db.Valid()
    ensures db.nextGroup >= old(db.nextGroup) && db.nextMember >= old(db.nextMember) && db.nextChat >= old(db.nextChat)
    ensures failed <==> FailsWithin(failAt, CreateGroupStatements(createdBy, memberIDs))
    ensures !failed ==>
      && gid == old(db.nextGroup) && gid !in old(db.groups)
      && db.groups == old(db.groups)[gid := Group(name, description, icon, createdBy)]
      && db.members == InsertRows(old(db.members), old(db.nextMember), InitialRows(gid, createdBy, memberIDs))
      && db.chats == old(db.chats)[old(db.nextChat) := Chat("group", None, None, Some(gid), None)]
  {
    MemberRowsShape(0, createdBy, memberIDs);
    if failAt == Some(0) {
      return 0, true;
    }
    gid := db.CreateGroupRow(Group(name, description, icon, createdBy));
    if failAt == Some(1) {
      return gid, true;
    }
    ghost var members0 := db.members;
    var start := db.CreateMemberRow(GroupMember(gid, createdBy, AdminRole));
    failed := InsertMemberRows(db, gid, createdBy, memberIDs, failAt);
    MemberRowsShape(gid, createdBy, memberIDs);
    if failed {
      return gid, true;
    }
    InsertRowsCons(members0, start, GroupMember(gid, createdBy, AdminRole), MemberRows(gid, createdBy, memberIDs));
    var step := 2 + |MemberRows(gid, createdBy, memberIDs)|;
    if failAt == Some(step) {
      return gid, true;
    }
    var _ := db.CreateChatRow(Chat("group", None, None, Some(gid), None));
    if failAt == Some(step + 1) {
      return gid, true;
    }
    return gid, false;
  }

  /** UpdateGroup: admins only; the group must exist; the given fields are overwritten. */
  method UpdateGroup(db: Database, g: Id, requester: Id, u: GroupUpdate) returns (r: Result<Group, GroupError>)
    requires db.Valid()
    modifies db`groups
    ensures db.Valid()
    ensures !IsAdmin(db.members, g, requester) ==> r == Err(NotAdmin)
    ensures IsAdmin(db.members, g, requester) && g !in old(db.groups) ==> r == Err(GroupNotFound)
    ensures r.Err? ==> db.groups == old(db.groups)
    ensures r.Ok? <==> IsAdmin(db.members, g, requester) && g in old(db.groups)
    ensures r.Ok? ==> r.value == Apply(old(db.groups)[g], u) && db.groups == old(db.groups)[g := r.value]
  {
    if !IsAdmin(db.members, g, requester) {
      return Err(NotAdmin);
    }
    if g !in db.groups {
      return Err(GroupNotFound);
    }
    var updated := Apply(db.groups[g], u);
    db.groups := db.groups[g := updated];
    return Ok(updated);
  }

  /**
   * DeleteGroup: admins only; then, in one transaction, delete the group's
   * membership rows, its chat and the group row. `failAt` as for CreateGroup.
   */
  method DeleteGroup(db: Database, g: Id, requester: Id, failAt: Option<nat>) returns (err: Option<GroupError>)
    requires db.Valid()
    modifies db`groups, db`members, db`chats
    ensures db.Valid()
    ensures !IsAdmin(old(db.members), g, requester) ==> err == Some(NotAdmin)
    ensures err.None? <==> IsAdmin(old(db.members), g, requester) && !FailsWithin(failAt, 4)
    ensures err.Some? ==> db.groups == old(db.groups) && db.members == old(db.members) && db.chats == old(db.chats)
    ensures err.Some? && IsAdmin(old(db.members), g, requester) ==> err == Some(WriteFailed)
    ensures err.None? ==>
      && db.members == WithoutGroup(old(db.members), g)
      && db.chats == WithoutGroupChats(old(db.chats), g)
      && db.groups == old(db.groups) - {g}
  {
    if !IsAdmin(db.members, g, requester) {
      return Some(NotAdmin);
    }
    var groups0, members0, chats0 := db.groups, db.members, db.chats;
    if failAt == Some(0) {
      return Some(WriteFailed);
    }
    db.members := WithoutGroup(db.members, g);
    if failAt == Some(1) {
      db.members := members0;
      return Some(WriteFailed);
    }
    db.chats := WithoutGroupChats(db.chats, g);
    if failAt == Some(2) {
      db.members, db.chats := members0, chats0;
      return Some(WriteFailed);
    }
    db.groups := db.groups - {g};
    if failAt == Some(3) {
      db.groups, db.members, db.chats := groups0, members0, chats0;
      return Some(WriteFailed);
    }
    return None;
  }

  /**
   * AddMember: the cap is checked first, on the group's row count and for
   * any requester; then the admin check; then the new user must not already
   * have a row; then exactly one "member" row is inserted.
   */
  method AddMember(db: Database, g: Id, requester: Id, newMember: Id) returns (err: Option<GroupError>)
    requires db.Valid()
    modifies db`members, db`nextMember
    ensures db.Valid()
    ensures |RowsOf(old(db.members), g)| >= MaxMembers ==> err == Some(GroupFull)
    ensures |RowsOf(old(db.members), g)| < MaxMembers && !IsAdmin(old(db.members), g, requester) ==> err == Some(NotAdmin)
    ensures |RowsOf(old(db.members), g)| < MaxMembers && IsAdmin(old(db.members), g, requester) && IsMember(old(db.members), g, newMember)
            ==> err == Some(AlreadyMember)
    ensures err.None? <==> |RowsOf(old(db.members), g)| < MaxMembers && IsAdmin(old(db.members), g, requester) && !IsMember(old(db.members), g, newMember)
    ensures err.Some? ==> db.members == old(db.members)
    ensures err.None? ==> db.members == old(db.members)[old(db.nextMember) := GroupMember(g, newMember, MemberRole)]
  {
    if |RowsOf(db.members, g)| >= MaxMembers {
      return Some(GroupFull);
    }
    if !IsAdmin(db.members, g, requester) {
      return Some(NotAdmin);
    }
    if IsMember(db.members, g, newMember) {
      return Some(AlreadyMember);
    }
    var _ := db.CreateMemberRow(GroupMember(g, newMember, MemberRole));
    return None;
  }

  /**
   * RemoveMember: admins only; an admin removing themself is refused while
   * the group has at most one admin row; then every row of the target in
   * the group is deleted.
   */
  method RemoveMember(db: Database, g: Id, requester: Id, target: Id) returns (err: Option<GroupError>)
    requires db.Valid()
    modifies db`members
    ensures db.Valid()
    ensures !IsAdmin(old(db.members), g, requester) ==> err == Some(NotAdmin)
    ensures IsAdmin(old(db.members), g, requester) && requester == target && |AdminRowsOf(old(db.members), g)| <= 1 ==> err == Some(OnlyAdmin)
    ensures err.None? <==> IsAdmin(old(db.members), g, requester) && (requester != target || |AdminRowsOf(old(db.members), g)| > 1)
    ensures err.Some? ==> db.members == old(db.members)
    ensures err.None? ==> db.members == WithoutUser(old(db.members), g, target)
  {
    if !IsAdmin(db.members, g, requester) {
      return Some(NotAdmin);
    }
    if requester == target {
      var adminCount := |AdminRowsOf(db.members, g)|;
      if adminCount <= 1 {
        return Some(OnlyAdmin);
      }
    }
    db.members := WithoutUser(db.members, g, target);
    return None;
  }

  /**
   * UpdateMemberRole: the role is validated before the admin check; then
   * every row of the target in the group gets the new role (none matching
   * is not an error).
   */
  method UpdateMemberRole(db: Database, g: Id, requester: Id, target: Id, newRole: string) returns (err: Option<GroupError>)
    requires db.Valid()
    modifies db`members
    ensures db.Valid()
    ensures newRole != AdminRole && newRole != MemberRole ==> err == Some(InvalidRole)
    ensures (newRole == AdminRole || newRole == MemberRole) && !IsAdmin(old(db.members), g, requester) ==> err == Some(NotAdmin)
    ensures err.None? <==> (newRole == AdminRole || newRole == MemberRole) && IsAdmin(old(db.members), g, requester)
    ensures err.Some? ==> db.members == old(db.members)
    ensures err.None? ==> db.members == WithRole(old(db.members), g, target, newRole)
  {
    if newRole != AdminRole && newRole != MemberRole {
      return Some(InvalidRole);
    }
    if !IsAdmin(db.members, g, requester) {
      return Some(NotAdmin);
    }
    db.members := WithRole(db.members, g, target, newRole);
    return None;
  }

  // ----- Properties of the resulting tables -----

  lemma {:induction false} KeyRangeSize(start: Id, n: nat)
    ensures |KeyRange(start, n)| == n
  {
    if n > 0 {
      KeyRangeSize(start, n - 1);
      assert KeyRange(start, n) == KeyRange(start, n - 1) + {start + n - 1};
    }
  }

  /** The rows of a group created on tables that hold none of it are the inserted ones. */
  lemma NewGroupRowKeys(m: map<Id, GroupMember>, start: Id, g: Id, rows: seq<GroupMember>)
    requires RowsOf(m, g) == {} && forall i :: 0 <= i < |rows| ==> rows[i].groupId == g
    ensures RowsOf(InsertRows(m, start, rows), g) == KeyRange(start, |rows|)
  {
    var r := InsertRows(m, start, rows);
    InsertRowsContent(m, start, rows);
    forall k | k in r
      ensures k in RowsOf(r, g) <==> k in KeyRange(start, |rows|)
    {
      if InRange(k, start, |rows|) {
        assert r[k] == rows[k - start];
      } else {
        assert k in RowsOf(m, g) <==> m[k].groupId == g;
      }
    }
  }

  /**
   * A group created on tables that hold no row of it has exactly one admin
   * row, the creator's, and one row per listed id other than the creator,
   * with duplicates counted.
   */
  lemma NewGroupRows(m: map<Id, GroupMember>, start: Id, g: Id, creator: Id, ids: seq<Id>)
    requires RowsOf(m, g) == {} && forall k :: k in m ==> k < start
    ensures AdminRowsOf(InsertRows(m, start, InitialRows(g, creator, ids)), g) == {start}
    ensures IsAdmin(InsertRows(m, start, InitialRows(g, creator, ids)), g, creator)
    ensures |RowsOf(InsertRows(m, start, InitialRows(g, creator, ids)), g)| == 1 + |ids| - multiset(ids)[creator]
  {
    var rows := InitialRows(g, creator, ids);
    var r := InsertRows(m, start, rows);
    MemberRowsShape(g, creator, ids);
    NewGroupRowKeys(m, start, g, rows);
    InsertRowsContent(m, start, rows);
    KeyRangeSize(start, |rows|);
    forall k | k in r
      ensures k in AdminRowsOf(r, g) <==> k == start
    {
      assert k in AdminRowsOf(r, g) <==> k in RowsOf(r, g) && r[k].role == AdminRole;
      if InRange(k, start, |rows|) && k != start {
        assert r[k] == rows[k - start] == MemberRows(g, creator, ids)[k - start - 1];
      }
    }
    assert r[start] == rows[0];
  }

  /** Every listed id other than the creator gets a member row. */
  lemma {:induction false} MemberRowsCover(g: Id, creator: Id, ids: seq<Id>, u: Id)
    requires u in ids && u != creator
    ensures exists i :: 0 <= i < |MemberRows(g, creator, ids)| && MemberRows(g, creator, ids)[i] == GroupMember(g, u, MemberRole)
  {
    var last := ids[|ids| - 1];
    var rest := MemberRows(g, creator, ids[..|ids| - 1]);
    if u == last {
      assert MemberRows(g, creator, ids)[|rest|] == GroupMember(g, u, MemberRole);
    } else {
      assert ids == ids[..|ids| - 1] + [last];
      MemberRowsCover(g, creator, ids[..|ids| - 1], u);
      var i :| 0 <= i < |rest| && rest[i] == GroupMember(g, u, MemberRole);
      assert MemberRows(g, creator, ids)[i] == rest[i];
    }
  }

  /** Every id other than the creator gets one member row per listing, no more and no fewer. */
  lemma {:induction false} MemberRowsCount(g: Id, creator: Id, ids: seq<Id>, u: Id)
    requires u != creator
    ensures multiset(MemberRows(g, creator, ids))[GroupMember(g, u, MemberRole)] == multiset(ids)[u]
  {
    if ids != [] {
      var n := |ids| - 1;
      MemberRowsCount(g, creator, ids[..n], u);
      assert ids == ids[..n] + [ids[n]];
    }
  }

  /** A listed id given twice gets two member rows. */
  lemma DuplicateIdGivesTwoRows(g: Id, creator: Id, u: Id)
    requires u != creator
    ensures MemberRows(g, creator, [u, u]) == [GroupMember(g, u, MemberRole), GroupMember(g, u, MemberRole)]
  {
    assert [u][..0] == [];
    assert MemberRows(g, creator, [u]) == [GroupMember(g, u, MemberRole)];
    assert [u, u][..1] == [u];
  }

  /** A row AddMember inserts into a group below the cap leaves it at most at the cap. */
  lemma AddedRowKeepsCap(m: map<Id, GroupMember>, g: Id, k: Id, u: Id)
    requires k !in m && |RowsOf(m, g)| < MaxMembers
    ensures |RowsOf(m[k := GroupMember(g, u, MemberRole)], g)| == |RowsOf(m, g)| + 1 <= MaxMembers
  {
    assert RowsOf(m[k := GroupMember(g, u, MemberRole)], g) == RowsOf(m, g) + {k};
  }

  /**
   * The last-admin guard covers self-removal only: an admin who demotes
   * themself while every admin row of the group is theirs leaves the group
   * with no admin at all, so no later admin check in it can ever pass.
   */
  lemma SelfDemotionLeavesNoAdmin(m: map<Id, GroupMember>, g: Id, u: Id, v: Id)
    requires forall k :: k in AdminRowsOf(m, g) ==> m[k].userId == u
    ensures AdminRowsOf(WithRole(m, g, u, MemberRole), g) == {}
    ensures !IsAdmin(WithRole(m, g, u, MemberRole), g, v)
  {
    var r := WithRole(m, g, u, MemberRole);
    forall k | k in r
      ensures k !in AdminRowsOf(r, g)
    {
      assert k in AdminRowsOf(m, g) <==> m[k].groupId == g && m[k].role == AdminRole;
    }
    forall k | k in r
      ensures r[k] != GroupMember(g, v, AdminRole)
    {
      assert k in AdminRowsOf(r, g) <==> r[k].groupId == g && r[k].role == AdminRole;
    }
  }

  /**
   * The self-removal guard counts rows, not users: an admin holding two
   * admin rows, the only ones of the group, passes the guard and removing
   * themself leaves the group without any admin.
   */
  lemma SelfRemovalGuardCountsRows(m: map<Id, GroupMember>, g: Id, u: Id, k1: Id, k2: Id)
    requires k1 != k2 && AdminRowsOf(m, g) == {k1, k2} && m[k1].userId == u && m[k2].userId == u
    ensures |AdminRowsOf(m, g)| > 1
    ensures AdminRowsOf(WithoutUser(m, g, u), g) == {}
  {
    var r := WithoutUser(m, g, u);
    assert k1 in AdminRowsOf(m, g) && k2 in AdminRowsOf(m, g);
    forall k | k in r
      ensures k !in AdminRowsOf(r, g)
    {
      assert k in AdminRowsOf(m, g) <==> m[k].groupId == g && m[k].role == AdminRole;
    }
  }
}
