/**
  One roster per group, which the four records of GroupStore all represent: what the handlers do
  to the roster, and when the records keep agreeing with one.
*/
module Roster {
  import opened Names
  import opened GroupStore

  /** A group: its uuid and the role of each of its users. */
  datatype Group = Group(uuid: string, roles: map<string, string>)

  type Groups = map<GroupId, Group>

  ghost predicate ValidRoles(roles: map<string, string>) {
    forall u | u in roles :: IsRole(roles[u])
  }

  /** The owner, and only the owner, is 群主. */
  ghost predicate ValidGroup(id: GroupId, g: Group) {
    && NameOk(id.owner)
    && ValidRoles(g.roles)
    && id.owner in g.roles
    && forall u | u in g.roles :: g.roles[u] == OWNER <==> u == id.owner
  }

  ghost predicate ValidGroups(gs: Groups) {
    && (forall id | id in gs :: ValidGroup(id, gs[id]))
    && (forall x, y | x in gs && y in gs && gs[x].uuid == gs[y].uuid :: x == y)
  }

  // ---------- the records of a roster ----------

  function Entries(roles: map<string, string>): set<string> {
    set u | u in roles :: MemberEntry(u, roles[u])
  }

  /** The users with a role above 成员, and that role. */
  function Privileged(roles: map<string, string>): map<string, string> {
    map u | u in roles && roles[u] != MEMBER :: roles[u]
  }

  function EntryOf(id: GroupId): string {
    GroupEntry(id.name, id.owner)
  }

  ghost function ListOf(gs: Groups, u: string): set<string> {
    set id | id in gs && u in gs[id].roles :: EntryOf(id)
  }

  ghost function Uuids(gs: Groups): set<string> {
    set id | id in gs :: gs[id].uuid
  }

  ghost predicate IndexAgrees(db: Db, gs: Groups) {
    && (forall id | id in gs :: IndexKey(id) in db.index && db.index[IndexKey(id)] == gs[id].uuid)
    && (forall k | k in db.index :: exists id :: id in gs && k == IndexKey(id))
  }

  ghost predicate GroupAgrees(db: Db, g: Group) {
    db.Members(g.uuid) == Entries(g.roles) && db.Managers(g.uuid) == Privileged(g.roles)
  }

  /** Index, member sets and manager hashes are those of the groups; nothing else is recorded. */
  ghost predicate RolesAgree(db: Db, gs: Groups) {
    && ValidGroups(gs)
    && IndexAgrees(db, gs)
    && (forall id | id in gs :: GroupAgrees(db, gs[id]))
    && (forall uuid | uuid !in Uuids(gs) :: db.Members(uuid) == {} && db.Managers(uuid) == map[])
  }

  /** Entries tell groups apart. */
  ghost predicate ListNames(gs: Groups) {
    forall id | id in gs :: NoSeparator(id.owner)
  }

  /** Every user's list names exactly the groups the user is in. */
  ghost predicate ListsAgree(db: Db, gs: Groups) {
    ListNames(gs) && forall u :: db.List(u) == ListOf(gs, u)
  }

  // ---------- what a request does to the rosters ----------

  ghost function WithRole(gs: Groups, id: GroupId, user: string, role: string): Groups
    requires id in gs
  {
    gs[id := gs[id].(roles := gs[id].roles[user := role])]
  }

  ghost function Without(gs: Groups, id: GroupId, user: string): Groups
    requires id in gs
  {
    gs[id := gs[id].(roles := gs[id].roles - {user})]
  }

  ghost predicate HasRole(gs: Groups, id: GroupId, user: string, role: string)
    requires id in gs
  {
    user in gs[id].roles && gs[id].roles[user] == role
  }

  ghost predicate IsPrivileged(gs: Groups, id: GroupId, user: string)
    requires id in gs
  {
    user in gs[id].roles && gs[id].roles[user] != MEMBER
  }

  /** A request that names a group names an existing one; a new group has a colon-free owner name
      and a uuid not in use. */
  ghost predicate Allowed(gs: Groups, op: Op) {
    match op
    case AddGroup(user, _, uuid) => NameOk(user) && uuid !in Uuids(gs)
    case _ => op.id in gs
  }

  /** For the lists, the owner of a new group must not have the separator in the name. */
  predicate ListAllowed(op: Op) {
    op.AddGroup? ==> NoSeparator(op.user)
  }

  /** Leaving removes the entry composed of the user and the claimed role. With a colon in the claim
      it can be another user's: whose, and which role it says. */
  function Leaver(user: string, statue: string): string {
    EntryUser(MemberEntry(user, statue))
  }

  function LeaverRole(user: string, statue: string): string {
    EntryRole(MemberEntry(user, statue))
  }

  /** A claim without a colon means what it says. */
  lemma PlainLeaver(user: string, statue: string)
    requires NoChar(statue, ':')
    ensures Leaver(user, statue) == user && LeaverRole(user, statue) == statue
  {
    EntryRoundTrip(user, statue);
  }

  ghost function Next(gs: Groups, op: Op): Groups
    requires Allowed(gs, op)
  {
    match op
    case AddGroup(user, name, uuid) =>
      if GroupId(user, name) in gs then gs
      else gs[GroupId(user, name) := Group(uuid, map[user := OWNER])]
    case Accept(id, user) => if user in gs[id].roles then gs else WithRole(gs, id, user, MEMBER)
    case AddMember(id, user) => if user in gs[id].roles then gs else WithRole(gs, id, user, MEMBER)
    case DelMember(id, user, statue) =>
      if (statue == OWNER && (HasRole(gs, id, user, MEMBER) || HasRole(gs, id, user, MANAGER)))
         || (statue == MANAGER && HasRole(gs, id, user, MEMBER))
      then Without(gs, id, user) else gs
    case Leave(id, user, statue) =>
      if HasRole(gs, id, Leaver(user, statue), LeaverRole(user, statue)) then Without(gs, id, Leaver(user, statue)) else gs
    case AddManager(id, user) => WithRole(gs, id, user, MANAGER)
    case DelManager(id, user) => if HasRole(gs, id, user, MANAGER) then WithRole(gs, id, user, MEMBER) else gs
    case Disband(id) => gs - {id}
  }

  /** The condition under which the handler keeps the role records together. */
  ghost predicate Guard(gs: Groups, op: Op)
    requires Allowed(gs, op)
  {
    match op
    case Accept(id, user) => user in gs[id].roles ==> gs[id].roles[user] == MEMBER
    case AddMember(id, user) => user in gs[id].roles ==> gs[id].roles[user] == MEMBER
    case Leave(id, user, statue) =>
      var v, r := Leaver(user, statue), LeaverRole(user, statue);
      HasRole(gs, id, v, r) ==> v != id.owner && (v == user || (r == MEMBER && !IsPrivileged(gs, id, user)))
    case AddManager(id, user) => user != id.owner
    case DelManager(id, user) => user != id.owner
    case _ => true
  }

  /** The further condition under which it keeps the users' lists right as well: a new manager was
      a member, a kick by a manager is harmless only when swapping the two names changes nothing, and
      who leaves is the user who asks. */
  ghost predicate ListGuard(gs: Groups, op: Op)
    requires Allowed(gs, op)
  {
    match op
    case AddManager(id, user) => user in gs[id].roles
    case Leave(id, user, statue) =>
      HasRole(gs, id, Leaver(user, statue), LeaverRole(user, statue)) ==> Leaver(user, statue) == user
    case DelMember(id, user, statue) =>
      statue == MANAGER && HasRole(gs, id, user, MEMBER) ==> GroupEntry(id.owner, id.name) == EntryOf(id)
    case _ => true
  }

  /** For a claim without a colon the guards of leaving come down to this: the owner does not leave as
      owner, and nothing more. */
  lemma PlainLeaveGuard(gs: Groups, op: Op)
    requires ValidGroups(gs) && op.Leave? && op.id in gs && NoChar(op.statue, ':')
    ensures Guard(gs, op) <==> !(op.user == op.id.owner && op.statue == OWNER)
    ensures ListGuard(gs, op)
  {
    PlainLeaver(op.user, op.statue);
    assert ValidGroup(op.id, gs[op.id]);
  }

  // ---------- entries and roles ----------

  lemma EntryIn(roles: map<string, string>, u: string, r: string)
    requires ValidRoles(roles) && NoChar(r, ':')
    ensures MemberEntry(u, r) in Entries(roles) <==> u in roles && roles[u] == r
  {
    EntryRoundTrip(u, r);
    if MemberEntry(u, r) in Entries(roles) {
      var v :| v in roles && MemberEntry(v, roles[v]) == MemberEntry(u, r);
      RolesHaveNoColon(roles[v]);
      EntryRoundTrip(v, roles[v]);
    }
  }

  lemma EntriesInjective(roles: map<string, string>, u: string, v: string)
    requires ValidRoles(roles) && u in roles && v in roles
    ensures MemberEntry(u, roles[u]) == MemberEntry(v, roles[v]) ==> u == v
  {
    RolesHaveNoColon(roles[u]);
    RolesHaveNoColon(roles[v]);
    EntryRoundTrip(u, roles[u]);
    EntryRoundTrip(v, roles[v]);
  }

  lemma EntriesAdd(roles: map<string, string>, u: string, r: string)
    requires u !in roles
    ensures Entries(roles[u := r]) == Entries(roles) + {MemberEntry(u, r)}
    ensures Privileged(roles[u := r]) == if r == MEMBER then Privileged(roles) else Privileged(roles)[u := r]
  {
    var after := roles[u := r];
    assert forall v | v in roles :: after[v] == roles[v];
    forall e ensures e in Entries(after) <==> e in Entries(roles) + {MemberEntry(u, r)} {
      if e in Entries(roles) {
        var v :| v in roles && e == MemberEntry(v, roles[v]);
        assert e == MemberEntry(v, after[v]);
      }
      if e == MemberEntry(u, r) { assert e == MemberEntry(u, after[u]); }
    }
  }

  lemma EntriesRemove(roles: map<string, string>, u: string)
    requires ValidRoles(roles) && u in roles
    ensures Entries(roles - {u}) == Entries(roles) - {MemberEntry(u, roles[u])}
    ensures Privileged(roles - {u}) == Privileged(roles) - {u}
  {
    var after := roles - {u};
    forall e ensures e in Entries(after) <==> e in Entries(roles) - {MemberEntry(u, roles[u])} {
      if e in Entries(roles) && e != MemberEntry(u, roles[u]) {
        var v :| v in roles && e == MemberEntry(v, roles[v]);
        assert v in after && e == MemberEntry(v, after[v]);
      }
      if e in Entries(after) {
        var v :| v in after && e == MemberEntry(v, after[v]);
        EntriesInjective(roles, u, v);
      }
    }
  }

  /** Changing a user's role replaces one entry. */
  lemma EntriesReplace(roles: map<string, string>, u: string, r: string)
    requires ValidRoles(roles) && u in roles
    ensures Entries(roles[u := r]) == Entries(roles) - {MemberEntry(u, roles[u])} + {MemberEntry(u, r)}
    ensures Privileged(roles[u := r]) ==
            if r == MEMBER then Privileged(roles) - {u} else Privileged(roles)[u := r]
  {
    EntriesRemove(roles, u);
    EntriesAdd(roles - {u}, u, r);
    assert (roles - {u})[u := r] == roles[u := r];
  }
}
