/** The guards are exact: when one fails, the records agree with no roster at all any more. */
module GroupExact {
  import opened Names
  import opened GroupStore
  import opened Roster
  import opened GroupRoles

  /** What agreeing records say about a group whose index entry is known. */
  lemma IndexedGroup(db: Db, gs: Groups, id: GroupId, uuid: string)
    requires RolesAgree(db, gs) && NameOk(id.owner) && IndexKey(id) in db.index && db.index[IndexKey(id)] == uuid
    ensures id in gs && gs[id].uuid == uuid && ValidGroup(id, gs[id]) && GroupAgrees(db, gs[id])
  {
    hide IndexKey, NameOk, Entries, Privileged;
    KnownKey(db, gs, id);
  }

  /** The same records cannot agree with two different rosters. */
  lemma RosterUnique(db: Db, x: Groups, y: Groups)
    requires RolesAgree(db, x) && RolesAgree(db, y)
    ensures x == y
  {
    hide IndexKey, NameOk, Entries, Privileged, Db.Members, Db.Managers, MemberEntry, ValidRoles;
    forall id | id in x ensures id in y && x[id] == y[id] { SameGroup(db, x, y, id); }
    forall id | id in y ensures id in x { SameGroup(db, y, x, id); }
  }

  lemma SameGroup(db: Db, x: Groups, y: Groups, id: GroupId)
    requires RolesAgree(db, x) && RolesAgree(db, y) && id in x
    ensures id in y && x[id] == y[id]
  {
    hide IndexKey, NameOk, Entries, Privileged, Db.Members, Db.Managers, MemberEntry, IsRole, NoChar;
    GroupOf(db, x, id);
    IndexedGroup(db, y, id, x[id].uuid);
    forall u ensures u in x[id].roles <==> u in y[id].roles
             ensures u in x[id].roles ==> x[id].roles[u] == y[id].roles[u]
    {
      if u in x[id].roles { RolesHaveNoColon(x[id].roles[u]); EntryIn(x[id].roles, u, x[id].roles[u]); EntryIn(y[id].roles, u, x[id].roles[u]); }
      if u in y[id].roles { RolesHaveNoColon(y[id].roles[u]); EntryIn(x[id].roles, u, y[id].roles[u]); EntryIn(y[id].roles, u, y[id].roles[u]); }
    }
  }

  /** A user has at most one role entry. */
  lemma OneRole(db: Db, gs: Groups, id: GroupId, u: string, r: string, q: string)
    requires RolesAgree(db, gs) && id in gs && NoChar(r, ':') && NoChar(q, ':')
    requires MemberEntry(u, r) in db.Members(gs[id].uuid) && MemberEntry(u, q) in db.Members(gs[id].uuid)
    ensures r == q
  {
    hide MemberEntry, IndexKey, NameOk, Entries, Privileged;
    GroupOf(db, gs, id);
    EntryIn(gs[id].roles, u, r);
    EntryIn(gs[id].roles, u, q);
  }

  lemma LeaveGuardNeeded(db: Db, gs: Groups, op: Op, after: Groups)
    requires RolesAgree(db, gs) && op.Leave? && op.id in gs && Runs(db, op) && RolesAgree(Apply(db, op), after)
    ensures Guard(gs, op)
  {
    hide MemberEntry, IndexKey, GroupEntry, NameOk, NoChar, Entries, Privileged, RolesAgree, EntryUser, EntryRole;
    var id, user, db2 := op.id, op.user, Apply(db, op);
    GroupOf(db, gs, id);
    var roles, uuid := gs[id].roles, gs[id].uuid;
    assert db2.index == db.index;
    IndexedGroup(db2, after, id, uuid);
    var v, r := Leaver(user, op.statue), LeaverRole(user, op.statue);
    EntryParts(user, op.statue);
    EntryIn(roles, v, r);
    if HasRole(gs, id, v, r) {
      ExpelledRecords(db, uuid, MemberEntry(v, r), user, EntryOf(id));
      hide Apply;
      var roles2 := after[id].roles;
      assert db2.Members(uuid) == Entries(roles) - {MemberEntry(v, r)} && db2.Managers(uuid) == Privileged(roles) - {user};
      EntryIn(roles2, v, r);
      EntryIn(roles2, id.owner, OWNER);
      if v != user {
        PrivilegedIn(roles, v);
        PrivilegedIn(roles2, v);
        if IsPrivileged(gs, id, user) {
          PrivilegedIn(roles2, user);
          RolesHaveNoColon(roles[user]);
          EntryIn(roles, user, roles[user]);
          EntryIn(roles2, user, roles[user]);
          EntryRoundTrip(user, roles[user]);
          EntryRoundTrip(v, r);
        }
      }
    }
  }

  /** Records that agree with some roster after a request show that its guard held. */
  lemma GuardNeeded(db: Db, gs: Groups, op: Op, after: Groups)
    requires RolesAgree(db, gs) && Allowed(gs, op)
    requires Runs(db, op) && RolesAgree(Apply(db, op), after)
    ensures Guard(gs, op)
  {
    hide MemberEntry, IndexKey, GroupEntry, NameOk, NoChar, Entries, Privileged, RolesAgree;
    if !Guard(gs, op) {
      var id, user, db2 := op.id, op.user, Apply(db, op);
      GroupOf(db, gs, id);
      var roles, uuid := gs[id].roles, gs[id].uuid;
      assert db2.index == db.index;
      IndexedGroup(db2, after, id, uuid);
      var role := if user in roles then roles[user] else MEMBER;
      RolesHaveNoColon(role);
      EntryIn(roles, user, role);
      match op
      case Accept(_, _) => OneRole(db2, after, id, user, role, MEMBER);
      case AddMember(_, _) =>
        EntryIn(roles, user, MEMBER);
        OneRole(db2, after, id, user, role, MEMBER);
      case Leave(_, _, statue) => LeaveGuardNeeded(db, gs, op, after);
      case AddManager(_, _) =>
        PrivilegedIn(roles, user);
        EntryIn(after[id].roles, user, OWNER);
        PrivilegedIn(after[id].roles, user);
      case DelManager(_, _) =>
        PrivilegedIn(roles, user);
        EntryRoundTrip(user, MANAGER);
        EntryRoundTrip(user, OWNER);
        OneRole(db2, after, id, user, OWNER, MEMBER);
    }
  }

  /** The role records agree after a request if and only if its guard held before it. */
  lemma RolesKeptIff(db: Db, gs: Groups, op: Op)
    requires RolesAgree(db, gs) && Allowed(gs, op)
    ensures Runs(db, op)
    ensures (exists after :: RolesAgree(Apply(db, op), after)) <==> Guard(gs, op)
  {
    hide RolesAgree, Apply, Next, Guard;
    if !op.AddGroup? { GroupOf(db, gs, op.id); }
    forall after | RolesAgree(Apply(db, op), after) ensures Guard(gs, op) { GuardNeeded(db, gs, op, after); }
    if Guard(gs, op) { RolesKept(db, gs, op); }
  }
}
