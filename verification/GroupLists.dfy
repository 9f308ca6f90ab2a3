/** The users' group lists, the fourth record of the same facts, and runs of requests. */
module GroupLists {
  import opened Names
  import opened GroupStore
  import opened Roster
  import opened GroupRoles

  // ---------- the list a roster asks for ----------

  lemma InListOf(gs: Groups, id: GroupId, u: string)
    requires ListNames(gs) && id in gs
    ensures EntryOf(id) in ListOf(gs, u) <==> u in gs[id].roles
  {
    hide GroupEntry, NoChar, NoSeparator;
    if EntryOf(id) in ListOf(gs, u) {
      var j :| j in gs && u in gs[j].roles && EntryOf(j) == EntryOf(id);
      GroupEntryInjective(j, id);
    }
  }

  /** Changing one roster changes at most the entry of that group in a user's list. */
  lemma ListWithGroup(gs: Groups, id: GroupId, g: Group, u: string)
    requires ListNames(gs) && NoSeparator(id.owner)
    ensures ListOf(gs[id := g], u) ==
            if u in g.roles then ListOf(gs, u) + {EntryOf(id)} else ListOf(gs, u) - {EntryOf(id)}
  {
    hide GroupEntry, EntryOf, NoSeparator, ListNames;
    var gs2 := gs[id := g];
    forall e ensures e in ListOf(gs2, u) <==> (if e == EntryOf(id) then u in g.roles else e in ListOf(gs, u)) {
      if e in ListOf(gs2, u) {
        var j :| j in gs2 && u in gs2[j].roles && e == EntryOf(j);
        if j != id {
          SameEntry(gs, j, id);
          assert gs2[j] == gs[j];
        }
      }
      if e in ListOf(gs, u) {
        var j :| j in gs && u in gs[j].roles && e == EntryOf(j);
        if j != id { assert j in gs2 && u in gs2[j].roles; }
      }
      if e == EntryOf(id) && u in g.roles { assert id in gs2 && u in gs2[id].roles; }
    }
  }

  lemma SameEntry(gs: Groups, j: GroupId, id: GroupId)
    requires ListNames(gs) && j in gs && NoSeparator(id.owner)
    ensures EntryOf(j) == EntryOf(id) ==> j == id
  {
    if EntryOf(j) == EntryOf(id) { GroupEntryInjective(j, id); }
  }

  lemma ListWithoutGroup(gs: Groups, id: GroupId, u: string)
    requires ListNames(gs) && id in gs
    ensures ListOf(gs - {id}, u) == ListOf(gs, u) - {EntryOf(id)}
  {
    assert NoSeparator(id.owner);
    hide GroupEntry, EntryOf, NoSeparator, ListNames;
    var gs2 := gs - {id};
    forall j | j in gs2 ensures j in gs && gs2[j] == gs[j] && EntryOf(j) != EntryOf(id) { SameEntry(gs, j, id); }
    assert forall j | j in gs && j != id :: j in gs2;
    assert ListOf(gs2, u) <= ListOf(gs, u) - {EntryOf(id)};
    assert ListOf(gs, u) - {EntryOf(id)} <= ListOf(gs2, u);
  }

  // ---------- preservation ----------

  /** The list record of one user after a request that concerns at most one list. */
  ghost predicate OnlyList(db: Db, after: Db, user: string, l: set<string>) {
    forall u :: after.List(u) == if u == user then l else db.List(u)
  }

  lemma OneListKept(db: Db, gs: Groups, after: Db, id: GroupId, g: Group, user: string)
    requires ListsAgree(db, gs) && NoSeparator(id.owner)
    requires OnlyList(db, after, user, if user in g.roles then db.List(user) + {EntryOf(id)} else db.List(user) - {EntryOf(id)})
    requires forall u | u != user :: u in g.roles <==> id in gs && u in gs[id].roles
    ensures ListsAgree(after, gs[id := g])
  {
    hide ListOf, Db.List, EntryOf, NoSeparator;
    forall u ensures after.List(u) == ListOf(gs[id := g], u) {
      ListWithGroup(gs, id, g, u);
      if id in gs { InListOf(gs, id, u); } else { NotInList(gs, id, u); }
    }
  }

  lemma NotInList(gs: Groups, id: GroupId, u: string)
    requires ListNames(gs) && NoSeparator(id.owner) && id !in gs
    ensures EntryOf(id) !in ListOf(gs, u)
  {
    hide EntryOf, NoSeparator;
    forall j | j in gs ensures EntryOf(j) != EntryOf(id) { SameEntry(gs, j, id); }
  }

  /** A request touches the list of its user only, and leaves it as the new roster wants it. */
  ghost predicate ListFollows(db: Db, gs: Groups, op: Op)
    requires Allowed(gs, op) && !op.AddGroup? && !op.Disband?
  {
    && Runs(db, op) && op.id in Next(gs, op)
    && var g, e, l := Next(gs, op)[op.id], EntryOf(op.id), db.List(op.user);
       OnlyList(db, Apply(db, op), op.user, if op.user in g.roles then l + {e} else l - {e})
  }

  /** Before the request the user's list is as the roster wants it. */
  lemma ListBefore(db: Db, gs: Groups, id: GroupId, user: string)
    requires RolesAgree(db, gs) && ListsAgree(db, gs) && id in gs
    ensures user in gs[id].roles ==> db.List(user) + {EntryOf(id)} == db.List(user)
    ensures user !in gs[id].roles ==> db.List(user) - {EntryOf(id)} == db.List(user)
  {
    hide ListOf, EntryOf;
    InListOf(gs, id, user);
    assert db.List(user) == ListOf(gs, user);
  }

  lemma JoinListFollows(db: Db, gs: Groups, op: Op)
    requires RolesAgree(db, gs) && ListsAgree(db, gs) && Allowed(gs, op) && Guard(gs, op)
    requires op.AddMember? || op.Accept?
    ensures ListFollows(db, gs, op)
  {
    hide MemberEntry, IndexKey, GroupEntry, Entries, Privileged, ListsAgree, RolesAgree;
    GroupOf(db, gs, op.id);
    ListBefore(db, gs, op.id, op.user);
    EntryIn(gs[op.id].roles, op.user, MEMBER);
  }

  lemma ExpelListFollows(db: Db, gs: Groups, op: Op)
    requires RolesAgree(db, gs) && ListsAgree(db, gs) && Allowed(gs, op) && Guard(gs, op) && ListGuard(gs, op)
    requires op.DelMember? || op.Leave?
    ensures ListFollows(db, gs, op)
  {
    hide MemberEntry, IndexKey, GroupEntry, Entries, Privileged, ListsAgree, RolesAgree, NoChar, EntryUser, EntryRole;
    GroupOf(db, gs, op.id);
    ListBefore(db, gs, op.id, op.user);
    var roles := gs[op.id].roles;
    EntryIn(roles, op.user, MEMBER);
    EntryIn(roles, op.user, MANAGER);
    PrivilegedIn(roles, op.user);
    if op.Leave? {
      EntryParts(op.user, op.statue);
      EntryIn(roles, Leaver(op.user, op.statue), LeaverRole(op.user, op.statue));
    }
  }

  lemma ManagerListFollows(db: Db, gs: Groups, op: Op)
    requires RolesAgree(db, gs) && ListsAgree(db, gs) && Allowed(gs, op) && ListGuard(gs, op)
    requires op.AddManager? || op.DelManager?
    ensures ListFollows(db, gs, op)
  {
    hide MemberEntry, IndexKey, GroupEntry, Entries, Privileged, ListsAgree, RolesAgree;
    GroupOf(db, gs, op.id);
    ListBefore(db, gs, op.id, op.user);
  }

  /** A request on an existing group replaces one roster, and in it at most the role of its user. */
  lemma NextIsUpdate(gs: Groups, op: Op)
    requires Allowed(gs, op) && !op.AddGroup? && !op.Disband? && ListGuard(gs, op)
    ensures op.id in Next(gs, op) && Next(gs, op) == gs[op.id := Next(gs, op)[op.id]]
    ensures forall u | u != op.user :: u in Next(gs, op)[op.id].roles <==> u in gs[op.id].roles
  {
    hide MemberEntry, EntryUser, EntryRole;
  }

  /** Disbanding takes the group off every list: those it does not visit do not name it. */
  lemma DisbandLists(db: Db, gs: Groups, id: GroupId)
    requires RolesAgree(db, gs) && ListsAgree(db, gs) && id in gs
    ensures IndexKey(id) in db.index
    ensures forall u :: Apply(db, Disband(id)).List(u) == db.List(u) - {EntryOf(id)}
  {
    hide MemberEntry, IndexKey, GroupEntry, NameOk, NoChar, Privileged, ListOf, EntryUser;
    GroupOf(db, gs, id);
    var uuid := gs[id].uuid;
    var users := set e | e in db.Members(uuid) :: EntryUser(e);
    var after := Apply(db, Disband(id));
    forall u ensures after.List(u) == db.List(u) - {EntryOf(id)} {
      InListOf(gs, id, u);
      assert db.List(u) == ListOf(gs, u);
      if u in gs[id].roles {
        RolesHaveNoColon(gs[id].roles[u]);
        EntryRoundTrip(u, gs[id].roles[u]);
        assert MemberEntry(u, gs[id].roles[u]) in db.Members(uuid);
        assert u in users;
      } else {
        assert db.List(u) - {EntryOf(id)} == db.List(u);
      }
    }
  }

  lemma UpdateListsKept(db: Db, gs: Groups, op: Op)
    requires RolesAgree(db, gs) && ListsAgree(db, gs) && Allowed(gs, op) && Guard(gs, op) && ListGuard(gs, op)
    requires !op.AddGroup? && !op.Disband?
    ensures Runs(db, op) && ListsAgree(Apply(db, op), Next(gs, op))
  {
    hide Apply, Guard, ListOf, Db.List, EntryOf, NoSeparator;
    assert NoSeparator(op.id.owner);
    NextIsUpdate(gs, op);
    match op {
      case AddManager(_, _) => ManagerListFollows(db, gs, op);
      case DelManager(_, _) => ManagerListFollows(db, gs, op);
      case DelMember(_, _, _) => ExpelListFollows(db, gs, op);
      case Leave(_, _, _) => ExpelListFollows(db, gs, op);
      case _ => JoinListFollows(db, gs, op);
    }
    hide Next, RolesAgree;
    OneListKept(db, gs, Apply(db, op), op.id, Next(gs, op)[op.id], op.user);
  }

  lemma AddGroupListsKept(db: Db, gs: Groups, op: Op)
    requires RolesAgree(db, gs) && ListsAgree(db, gs) && op.AddGroup? && Allowed(gs, op) && ListAllowed(op)
    ensures ListsAgree(Apply(db, op), Next(gs, op))
  {
    hide ListsAgree, RolesAgree, ListOf, IndexKey, MemberEntry, GroupEntry, Uuids, NameOk, NoSeparator;
    var id, g := GroupId(op.user, op.name), Group(op.uuid, map[op.user := OWNER]);
    KnownKey(db, gs, id);
    if id !in gs {
      OneListKept(db, gs, Apply(db, op), id, g, op.user);
    }
  }

  lemma DisbandListsKept(db: Db, gs: Groups, op: Op)
    requires RolesAgree(db, gs) && ListsAgree(db, gs) && op.Disband? && op.id in gs
    ensures Runs(db, op) && ListsAgree(Apply(db, op), Next(gs, op))
  {
    hide ListOf, Apply, RolesAgree, EntryOf, Db.List;
    DisbandLists(db, gs, op.id);
    forall u ensures Apply(db, op).List(u) == ListOf(gs - {op.id}, u) { ListWithoutGroup(gs, op.id, u); }
  }

  /** Under both guards every request keeps all four records in agreement with one roster. */
  lemma ListsKept(db: Db, gs: Groups, op: Op)
    requires RolesAgree(db, gs) && ListsAgree(db, gs) && Allowed(gs, op) && Guard(gs, op) && ListGuard(gs, op) && ListAllowed(op)
    ensures Runs(db, op) && ListsAgree(Apply(db, op), Next(gs, op))
  {
    hide RolesAgree, ListsAgree, Apply, Next;
    match op
    case AddGroup(_, _, _) => AddGroupListsKept(db, gs, op);
    case Disband(_) => DisbandListsKept(db, gs, op);
    case _ => UpdateListsKept(db, gs, op);
  }
}
