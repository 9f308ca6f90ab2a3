/**
  What each group request does to whom, said about the records alone: which user has which role in
  which group after it, and which groups stand in a user's list.
*/
module GroupEffects {
  import opened Names
  import opened GroupStore
  import opened Roster
  import opened GroupRoles
  import opened GroupLists
  import opened GroupRuns

  /** The group is known and its member set holds this user's entry with this role. */
  ghost predicate Has(db: Db, id: GroupId, u: string, r: string) {
    IndexKey(id) in db.index && MemberEntry(u, r) in db.Members(db.index[IndexKey(id)])
  }

  /** Who has which role after a request, from who had which before: a new group has its owner; who
      joins becomes 成员; the owner kicks anyone else and a manager 成员 only; who leaves loses the
      entry composed of the name and the claim; managers are made and unmade; a disbanded group has
      nobody; and nothing else changes, in this or any other group. */
  ghost predicate HasAfter(db: Db, op: Op, id: GroupId, u: string, r: string) {
    match op
    case AddGroup(user, name, _) =>
      if id == GroupId(user, name) && IndexKey(id) !in db.index then u == user && r == OWNER else Has(db, id, u, r)
    case Accept(g, user) => Has(db, id, u, r) || (id == g && u == user && r == MEMBER)
    case AddMember(g, user) => Has(db, id, u, r) || (id == g && u == user && r == MEMBER)
    case DelMember(g, user, statue) =>
      Has(db, id, u, r) && !(id == g && u == user && ((statue == OWNER && r != OWNER) || (statue == MANAGER && r == MEMBER)))
    case Leave(g, user, statue) => Has(db, id, u, r) && !(id == g && u + ":" + r == user + ":" + statue)
    case AddManager(g, user) => if id == g && u == user then r == MANAGER else Has(db, id, u, r)
    case DelManager(g, user) =>
      if id == g && u == user && Has(db, id, u, MANAGER) then r == MEMBER else Has(db, id, u, r)
    case Disband(g) => id != g && Has(db, id, u, r)
  }

  /** Records that agree with rosters hold the entries of the rosters. */
  lemma HasIff(db: Db, gs: Groups, id: GroupId, u: string, r: string)
    requires RolesAgree(db, gs) && NameOk(id.owner) && NoChar(r, ':')
    ensures Has(db, id, u, r) <==> id in gs && HasRole(gs, id, u, r)
  {
    hide MemberEntry, IndexKey, NameOk, NoChar, Entries, Privileged, RolesAgree;
    KnownKey(db, gs, id);
    if id in gs {
      GroupOf(db, gs, id);
      EntryIn(gs[id].roles, u, r);
    }
  }

  lemma ThreeRoles()
    ensures OWNER != MANAGER && MANAGER != MEMBER && OWNER != MEMBER
  {
    assert |OWNER| == 2 && |MANAGER| == 3 && OWNER[0] != MEMBER[0];
  }

  /** The roles of a request's group and of the others, before and after it. */
  lemma OtherGroups(gs: Groups, op: Op, id: GroupId)
    requires Allowed(gs, op)
    requires id != if op.AddGroup? then GroupId(op.user, op.name) else op.id
    ensures id in Next(gs, op) <==> id in gs
    ensures id in gs ==> Next(gs, op)[id] == gs[id]
  {
    hide EntryUser, EntryRole, MemberEntry, Uuids, NameOk;
  }

  lemma NewGroupRole(db: Db, gs: Groups, op: Op, u: string, r: string)
    requires RolesAgree(db, gs) && op.AddGroup? && Allowed(gs, op) && IsRole(r)
    ensures var id := GroupId(op.user, op.name);
            id in Next(gs, op) && HasRole(Next(gs, op), id, u, r) <==> HasAfter(db, op, id, u, r)
  {
    var id := GroupId(op.user, op.name);
    ThreeRoles();
    RolesHaveNoColon(r);
    HasIff(db, gs, id, u, r);
    KnownKey(db, gs, id);
    hide Has, IndexKey, NameOk, NoChar, RolesAgree, Uuids;
  }

  /** The same on the roster of the request's own group. */
  ghost predicate RoleAfter(gs: Groups, op: Op, u: string, r: string)
    requires !op.AddGroup? && op.id in gs
  {
    match op
    case Accept(g, user) => HasRole(gs, g, u, r) || (u == user && r == MEMBER)
    case AddMember(g, user) => HasRole(gs, g, u, r) || (u == user && r == MEMBER)
    case DelMember(g, user, statue) =>
      HasRole(gs, g, u, r) && !(u == user && ((statue == OWNER && r != OWNER) || (statue == MANAGER && r == MEMBER)))
    case Leave(g, user, statue) => HasRole(gs, g, u, r) && !(u == Leaver(user, statue) && r == LeaverRole(user, statue))
    case AddManager(g, user) => if u == user then r == MANAGER else HasRole(gs, g, u, r)
    case DelManager(g, user) => if u == user && HasRole(gs, g, u, MANAGER) then r == MEMBER else HasRole(gs, g, u, r)
    case Disband(_) => false
  }

  lemma KickedRole(gs: Groups, op: Op, u: string, r: string)
    requires op.DelMember? && op.id in gs && ValidRoles(gs[op.id].roles)
    ensures op.id in Next(gs, op) && HasRole(Next(gs, op), op.id, u, r) <==> RoleAfter(gs, op, u, r)
  {
    ThreeRoles();
  }

  lemma JoinedRole(gs: Groups, op: Op, u: string, r: string)
    requires (op.Accept? || op.AddMember?) && op.id in gs && Guard(gs, op)
    ensures op.id in Next(gs, op) && HasRole(Next(gs, op), op.id, u, r) <==> RoleAfter(gs, op, u, r)
  {
  }

  lemma OtherRole(gs: Groups, op: Op, u: string, r: string)
    requires (op.Leave? || op.AddManager? || op.DelManager? || op.Disband?) && op.id in gs
    ensures op.id in Next(gs, op) && HasRole(Next(gs, op), op.id, u, r) <==> RoleAfter(gs, op, u, r)
  {
    hide Leaver, LeaverRole;
  }

  /** A request on an existing group, user by user. */
  lemma OwnGroupRole(db: Db, gs: Groups, op: Op, u: string, r: string)
    requires RolesAgree(db, gs) && !op.AddGroup? && Allowed(gs, op) && Guard(gs, op) && IsRole(r)
    ensures op.id in Next(gs, op) && HasRole(Next(gs, op), op.id, u, r) <==> HasAfter(db, op, op.id, u, r)
  {
    hide Has, IndexKey, NameOk, NoChar, RolesAgree, GroupAgrees, Leaver, LeaverRole, MemberEntry, Next, Guard, HasRole, IsRole;
    var id := op.id;
    RolesHaveNoColon(r);
    RolesHaveNoColon(MANAGER) by { ManagerIsRole(); }
    GroupOf(db, gs, id);
    HasIff(db, gs, id, u, r);
    HasIff(db, gs, id, u, MANAGER);
    if op.DelMember? { KickedRole(gs, op, u, r); }
    else if op.Accept? || op.AddMember? { JoinedRole(gs, op, u, r); }
    else { OtherRole(gs, op, u, r); }
    if op.Leave? { LeaverIs(op.user, op.statue, u, r); }
  }

  lemma ManagerIsRole()
    ensures IsRole(MANAGER)
  {
  }

  /** What the rosters say about a request, role by role. */
  lemma NextRole(db: Db, gs: Groups, op: Op, id: GroupId, u: string, r: string)
    requires RolesAgree(db, gs) && Allowed(gs, op) && Guard(gs, op) && NameOk(id.owner) && IsRole(r)
    ensures id in Next(gs, op) && HasRole(Next(gs, op), id, u, r) <==> HasAfter(db, op, id, u, r)
  {
    if op.AddGroup? && id == GroupId(op.user, op.name) {
      NewGroupRole(db, gs, op, u, r);
    } else if !op.AddGroup? && id == op.id {
      OwnGroupRole(db, gs, op, u, r);
    } else {
      OtherGroups(gs, op, id);
      RolesHaveNoColon(r);
      HasIff(db, gs, id, u, r);
      hide RolesAgree, Allowed, Guard, Next, Has, NameOk, IsRole;
    }
  }

  /** Whose entry a claim composes. */
  lemma LeaverIs(user: string, statue: string, u: string, r: string)
    requires NoChar(r, ':')
    ensures u + ":" + r == user + ":" + statue <==> u == Leaver(user, statue) && r == LeaverRole(user, statue)
  {
    EntryParts(user, statue);
    EntryRoundTrip(u, r);
    hide EntryUser, EntryRole, NoChar;
  }

  /** After any request that meets its guard, every user has exactly the roles this says. */
  lemma RequestEffect(db: Db, gs: Groups, op: Op, id: GroupId, u: string, r: string)
    requires RolesAgree(db, gs) && Allowed(gs, op) && Guard(gs, op) && NameOk(id.owner) && IsRole(r)
    ensures Runs(db, op) && (Has(Apply(db, op), id, u, r) <==> HasAfter(db, op, id, u, r))
  {
    hide RolesAgree, Allowed, Guard, Next, Apply, HasAfter, Has, NameOk;
    RolesKept(db, gs, op);
    RolesHaveNoColon(r);
    HasIff(Apply(db, op), Next(gs, op), id, u, r);
    NextRole(db, gs, op, id, u, r);
  }

  /** And every user's list names exactly the groups in which the user then has a role. */
  lemma ListEffect(db: Db, gs: Groups, op: Op, id: GroupId, u: string)
    requires RolesAgree(db, gs) && ListsAgree(db, gs) && Allowed(gs, op) && Guard(gs, op) && ListGuard(gs, op)
    requires ListAllowed(op) && NameOk(id.owner) && NoSeparator(id.owner)
    ensures Runs(db, op)
    ensures id.name + "   ---" + id.owner in Apply(db, op).List(u) <==> exists r :: IsRole(r) && HasAfter(db, op, id, u, r)
  {
    hide RolesAgree, Allowed, Guard, ListGuard, Next, Apply, HasAfter, ListsAgree, ListAllowed, NameOk, NoSeparator, IsRole, Db.List, Db.Members;
    RolesKept(db, gs, op);
    ListsKept(db, gs, op);
    var after, gs2 := Apply(db, op), Next(gs, op);
    assert EntryOf(id) == id.name + "   ---" + id.owner;
    hide EntryOf;
    forall r | IsRole(r) ensures Has(after, id, u, r) <==> HasAfter(db, op, id, u, r) { RequestEffect(db, gs, op, id, u, r); }
    KnownKey(after, gs2, id);
    if id in gs2 {
      ListedIffMember(after, gs2, id, u);
    } else {
      Unlisted(after, gs2, id, u);
    }
  }

  lemma Unlisted(db: Db, gs: Groups, id: GroupId, u: string)
    requires ListsAgree(db, gs) && NoSeparator(id.owner) && id !in gs
    ensures EntryOf(id) !in db.List(u)
  {
    hide ListOf, EntryOf, NoSeparator;
    NotInList(gs, id, u);
    assert db.List(u) == ListOf(gs, u);
  }

  /** So in every run: the first records are empty, and each request changes them as it says. */
  lemma RunEffect(ops: seq<Op>, op: Op, id: GroupId, u: string, r: string)
    requires Guarded(ops + [op]) && NameOk(id.owner) && IsRole(r)
    ensures Guarded(ops) && (Has(RunDb(ops + [op]), id, u, r) <==> HasAfter(RunDb(ops), op, id, u, r))
    ensures !Has(RunDb([]), id, u, r)
  {
    assert (ops + [op])[..|ops|] == ops;
    assert RunDb([]) == EMPTY;
    hide RolesAgree, Allowed, Guard, Next, Apply, HasAfter, NameOk, IsRole;
    RolesInEveryRun(ops);
    RequestEffect(RunDb(ops), RunGroups(ops), op, id, u, r);
  }
}
