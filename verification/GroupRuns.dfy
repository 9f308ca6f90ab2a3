/** Exactness for all four records, whole runs, and what agreement means for the records themselves. */
module GroupRuns {
  import opened Names
  import opened GroupStore
  import opened Roster
  import opened GroupRoles
  import opened GroupExact
  import opened GroupLists

  // ---------- the list guard is exact ----------

  lemma ListGuardNeeded(db: Db, gs: Groups, op: Op, after: Groups)
    requires RolesAgree(db, gs) && ListsAgree(db, gs) && Allowed(gs, op)
    requires Runs(db, op) && RolesAgree(Apply(db, op), after) && ListsAgree(Apply(db, op), after)
    ensures Guard(gs, op) && ListGuard(gs, op)
  {
    hide RolesAgree, ListsAgree, Apply, Next, Guard;
    GuardNeeded(db, gs, op, after);
    RolesKept(db, gs, op);
    RosterUnique(Apply(db, op), after, Next(gs, op));
    if op.AddManager? {
      NewManagerListed(db, gs, op);
    } else if op.DelMember? && op.statue == MANAGER && HasRole(gs, op.id, op.user, MEMBER) {
      KickedUnlisted(db, gs, op);
    } else if op.Leave? {
      LeaverListed(db, gs, op);
    }
  }

  /** If a new manager's list is right afterwards, it named the group before. */
  lemma NewManagerListed(db: Db, gs: Groups, op: Op)
    requires RolesAgree(db, gs) && ListsAgree(db, gs) && op.AddManager? && op.id in gs && Runs(db, op)
    requires RolesAgree(Apply(db, op), Next(gs, op)) && ListsAgree(Apply(db, op), Next(gs, op))
    ensures op.user in gs[op.id].roles
  {
    hide MemberEntry, IndexKey, GroupEntry, ListOf, RolesAgree;
    InListOf(gs, op.id, op.user);
    InListOf(Next(gs, op), op.id, op.user);
    assert Apply(db, op).List(op.user) == db.List(op.user);
  }

  /** If a kicked user's list is right afterwards, the swapped entry was the group's own. */
  lemma KickedUnlisted(db: Db, gs: Groups, op: Op)
    requires RolesAgree(db, gs) && ListsAgree(db, gs) && op.DelMember? && op.id in gs && Runs(db, op)
    requires op.statue == MANAGER && HasRole(gs, op.id, op.user, MEMBER)
    requires RolesAgree(Apply(db, op), Next(gs, op)) && ListsAgree(Apply(db, op), Next(gs, op))
    ensures GroupEntry(op.id.owner, op.id.name) == EntryOf(op.id)
  {
    hide MemberEntry, IndexKey, GroupEntry, ListOf, RolesAgree, Entries, Privileged;
    GroupOf(db, gs, op.id);
    EntryIn(gs[op.id].roles, op.user, MEMBER);
    PrivilegedIn(gs[op.id].roles, op.user);
    InListOf(gs, op.id, op.user);
    InListOf(Next(gs, op), op.id, op.user);
    assert Apply(db, op).List(op.user) == db.List(op.user) - {GroupEntry(op.id.owner, op.id.name)};
  }

  /** If the list of a user whose entry another user's request removed is right afterwards, there was
      no such user. */
  lemma LeaverListed(db: Db, gs: Groups, op: Op)
    requires RolesAgree(db, gs) && ListsAgree(db, gs) && op.Leave? && op.id in gs && Runs(db, op)
    requires ListsAgree(Apply(db, op), Next(gs, op))
    ensures ListGuard(gs, op)
  {
    hide MemberEntry, IndexKey, GroupEntry, ListOf, RolesAgree, Entries, Privileged, EntryUser, EntryRole;
    GroupOf(db, gs, op.id);
    var v, r := Leaver(op.user, op.statue), LeaverRole(op.user, op.statue);
    if HasRole(gs, op.id, v, r) && v != op.user {
      assert Apply(db, op).List(v) == db.List(v);
      InListOf(gs, op.id, v);
      InListOf(Next(gs, op), op.id, v);
    }
  }

  /** All four records agree with a roster after a request if and only if both guards held before it. */
  lemma AllKeptIff(db: Db, gs: Groups, op: Op)
    requires RolesAgree(db, gs) && ListsAgree(db, gs) && Allowed(gs, op) && ListAllowed(op)
    ensures Runs(db, op)
    ensures (exists after :: RolesAgree(Apply(db, op), after) && ListsAgree(Apply(db, op), after))
       <==> Guard(gs, op) && ListGuard(gs, op)
  {
    hide RolesAgree, ListsAgree, Apply, Next, Guard, ListGuard;
    if !op.AddGroup? { GroupOf(db, gs, op.id); }
    forall after | RolesAgree(Apply(db, op), after) && ListsAgree(Apply(db, op), after)
      ensures Guard(gs, op) && ListGuard(gs, op)
    {
      ListGuardNeeded(db, gs, op, after);
    }
    if Guard(gs, op) && ListGuard(gs, op) {
      RolesKept(db, gs, op);
      ListsKept(db, gs, op);
    }
  }

  /** The swap in the manager's kick goes unnoticed only in a group named like its owner. */
  lemma SwapNoticed(id: GroupId)
    requires NoSeparator(id.owner) && NoSeparator(id.name)
    ensures GroupEntry(id.owner, id.name) == EntryOf(id) <==> id.owner == id.name
  {
    hide GroupEntry;
    if GroupEntry(id.owner, id.name) == EntryOf(id) {
      GroupEntryInjective(GroupId(id.name, id.owner), id);
    }
  }

  // ---------- runs ----------

  /** The rosters after a run of requests, and the condition that each met its guard. */
  ghost function RunGroups(ops: seq<Op>): Groups {
    if |ops| == 0 then map[]
    else
      var gs, op := RunGroups(ops[..|ops| - 1]), ops[|ops| - 1];
      if Allowed(gs, op) then Next(gs, op) else gs
  }

  ghost function RunDb(ops: seq<Op>): Db {
    if |ops| == 0 then EMPTY
    else
      var db, op := RunDb(ops[..|ops| - 1]), ops[|ops| - 1];
      if Runs(db, op) then Apply(db, op) else db
  }

  ghost predicate Guarded(ops: seq<Op>) {
    |ops| > 0 ==>
      var before := ops[..|ops| - 1];
      var gs, op := RunGroups(before), ops[|ops| - 1];
      Guarded(before) && Allowed(gs, op) && Guard(gs, op)
  }

  ghost predicate ListGuarded(ops: seq<Op>) {
    |ops| > 0 ==>
      var before := ops[..|ops| - 1];
      var gs, op := RunGroups(before), ops[|ops| - 1];
      ListGuarded(before) && Allowed(gs, op) && ListAllowed(op) && ListGuard(gs, op)
  }

  /** In every guarded run, kicks by managers included, the role records agree. */
  lemma {:induction false} RolesInEveryRun(ops: seq<Op>)
    requires Guarded(ops)
    ensures RolesAgree(RunDb(ops), RunGroups(ops))
    decreases |ops|
  {
    if |ops| > 0 {
      hide RolesAgree, Apply, Next, Guard;
      var before := ops[..|ops| - 1];
      RolesInEveryRun(before);
      RolesKept(RunDb(before), RunGroups(before), ops[|ops| - 1]);
    }
  }

  /** In every run that meets both guards, all four records agree. */
  lemma {:induction false} ListsInEveryRun(ops: seq<Op>)
    requires Guarded(ops) && ListGuarded(ops)
    ensures RolesAgree(RunDb(ops), RunGroups(ops)) && ListsAgree(RunDb(ops), RunGroups(ops))
    decreases |ops|
  {
    RolesInEveryRun(ops);
    if |ops| > 0 {
      hide RolesAgree, ListsAgree, Apply, Next, Guard, ListGuard;
      var before := ops[..|ops| - 1];
      ListsInEveryRun(before);
      ListsKept(RunDb(before), RunGroups(before), ops[|ops| - 1]);
    }
  }

  // ---------- what agreement says about the records ----------

  /** In a group's records every user has one role, the owner alone is 群主, and the manager hash is
      exactly the privileged part of the member set. */
  lemma RoleRecords(db: Db, gs: Groups, id: GroupId, u: string, r: string, q: string)
    requires RolesAgree(db, gs) && id in gs && IsRole(r) && IsRole(q)
    ensures IndexKey(id) in db.index
    ensures var M, H := db.Members(db.index[IndexKey(id)]), db.Managers(db.index[IndexKey(id)]);
            && (MemberEntry(u, r) in M && MemberEntry(u, q) in M ==> r == q)
            && (MemberEntry(u, OWNER) in M <==> u == id.owner)
            && ((u in H && H[u] == r) <==> (MemberEntry(u, r) in M && r != MEMBER))
            && (u in H ==> IsRole(H[u]) && H[u] != MEMBER && MemberEntry(u, H[u]) in M)
  {
    hide MemberEntry, IndexKey, Entries, Privileged, NameOk;
    GroupOf(db, gs, id);
    RolesHaveNoColon(r);
    RolesHaveNoColon(q);
    EntryIn(gs[id].roles, u, r);
    EntryIn(gs[id].roles, u, q);
    EntryIn(gs[id].roles, u, OWNER);
    PrivilegedIn(gs[id].roles, u);
    if u in gs[id].roles {
      RolesHaveNoColon(gs[id].roles[u]);
      EntryIn(gs[id].roles, u, gs[id].roles[u]);
    }
  }

  /** A user's list names a group exactly when the user has an entry in its member set. */
  lemma ListedIffMember(db: Db, gs: Groups, id: GroupId, u: string)
    requires RolesAgree(db, gs) && ListsAgree(db, gs) && id in gs
    ensures IndexKey(id) in db.index
    ensures EntryOf(id) in db.List(u) <==>
            exists r :: IsRole(r) && MemberEntry(u, r) in db.Members(db.index[IndexKey(id)])
  {
    hide MemberEntry, IndexKey, GroupEntry, ListOf, Entries, Privileged, NameOk;
    GroupOf(db, gs, id);
    InListOf(gs, id, u);
    var roles := gs[id].roles;
    forall r | IsRole(r) ensures MemberEntry(u, r) in Entries(roles) <==> u in roles && roles[u] == r {
      RolesHaveNoColon(r);
      EntryIn(roles, u, r);
    }
    if u in roles { assert IsRole(roles[u]); }
  }

  /** Disbanding erases the group from all four records. */
  lemma DisbandErases(db: Db, gs: Groups, id: GroupId, u: string)
    requires RolesAgree(db, gs) && ListsAgree(db, gs) && id in gs
    ensures IndexKey(id) in db.index
    ensures var after, uuid := Apply(db, Disband(id)), db.index[IndexKey(id)];
            && IndexKey(id) !in after.index && after.Members(uuid) == {} && after.Managers(uuid) == map[]
            && EntryOf(id) !in after.List(u)
  {
    hide IndexKey, Apply, EntryOf, Entries, Privileged, Db.List, Db.Members, Db.Managers;
    GroupOf(db, gs, id);
    DisbandClears(db, id);
    DisbandLists(db, gs, id);
  }

  /** It leaves the records of every other group as they were. */
  lemma DisbandSpares(db: Db, gs: Groups, id: GroupId, other: GroupId, u: string)
    requires RolesAgree(db, gs) && ListsAgree(db, gs) && id in gs && other in gs && other != id
    ensures IndexKey(id) in db.index && IndexKey(other) in db.index
    ensures var after, uuid := Apply(db, Disband(id)), db.index[IndexKey(other)];
            && IndexKey(other) in after.index && after.index[IndexKey(other)] == uuid
            && after.Members(uuid) == db.Members(uuid) && after.Managers(uuid) == db.Managers(uuid)
            && (EntryOf(other) in after.List(u) <==> EntryOf(other) in db.List(u))
  {
    hide IndexKey, Apply, EntryOf, Entries, Privileged, Db.List, Db.Members, Db.Managers;
    GroupOf(db, gs, id);
    GroupOf(db, gs, other);
    DisbandClears(db, id);
    DisbandLists(db, gs, id);
    DifferentKeys(gs, other, id);
    SameEntry(gs, other, id);
  }

  // ---------- the two views of roles ----------

  /** The map `group_members` builds, going through the member set in any order. */
  ghost function Shown(order: seq<string>): map<string, string> {
    if |order| == 0 then map[]
    else Shown(order[..|order| - 1])[EntryUser(order[|order| - 1]) := EntryRole(order[|order| - 1])]
  }

  /** `smembers` lists each element once. */
  ghost predicate Enumerates(order: seq<string>, s: set<string>) {
    && (forall i | 0 <= i < |order| :: order[i] in s)
    && (forall e | e in s :: exists i :: 0 <= i < |order| && order[i] == e)
  }

  lemma {:induction false} ShownIsRoles(order: seq<string>, roles: map<string, string>)
    requires ValidRoles(roles) && forall i | 0 <= i < |order| :: order[i] in Entries(roles)
    ensures forall u | u in Shown(order) :: u in roles && Shown(order)[u] == roles[u]
    ensures forall i | 0 <= i < |order| :: EntryUser(order[i]) in Shown(order)
    decreases |order|
  {
    hide MemberEntry, EntryUser, EntryRole, IsRole, NoChar;
    if |order| > 0 {
      var e := order[|order| - 1];
      ShownIsRoles(order[..|order| - 1], roles);
      var v :| v in roles && e == MemberEntry(v, roles[v]);
      RolesHaveNoColon(roles[v]);
      EntryRoundTrip(v, roles[v]);
    }
  }

  /** `group_members` shows every member once and with the true role, and `group_choice` tells each
      member the same role. */
  lemma ViewsAgree(db: Db, gs: Groups, id: GroupId, order: seq<string>)
    requires RolesAgree(db, gs) && id in gs && Enumerates(order, db.Members(gs[id].uuid))
    ensures Shown(order) == gs[id].roles
    ensures forall e | e in db.Members(gs[id].uuid) :: EntryUser(e) in Shown(order) && Shown(order)[EntryUser(e)] == EntryRole(e)
    ensures forall u | u in Shown(order) ::
              Shown(order)[u] == (if u in db.Managers(gs[id].uuid) then db.Managers(gs[id].uuid)[u] else MEMBER)
  {
    hide MemberEntry, IndexKey, NameOk, EntryUser, EntryRole, Privileged;
    GroupOf(db, gs, id);
    var roles := gs[id].roles;
    ShownIsRoles(order, roles);
    forall u | u in roles ensures u in Shown(order) {
      RolesHaveNoColon(roles[u]);
      EntryIn(roles, u, roles[u]);
      EntryRoundTrip(u, roles[u]);
      var i :| 0 <= i < |order| && order[i] == MemberEntry(u, roles[u]);
    }
    forall u | u in roles { PrivilegedIn(roles, u); }
    forall e | e in Entries(roles) ensures EntryUser(e) in roles && roles[EntryUser(e)] == EntryRole(e) {
      var v :| v in roles && e == MemberEntry(v, roles[v]);
      RolesHaveNoColon(roles[v]);
      EntryRoundTrip(v, roles[v]);
    }
  }
}
