/** The role records: which requests keep index, member sets and manager hashes in agreement. */
module GroupRoles {
  import opened Names
  import opened GroupStore
  import opened Roster

  /** Only the records of one group differ. */
  ghost predicate OnlyGroup(db: Db, after: Db, uuid: string) {
    && after.index == db.index
    && forall x | x != uuid :: after.Members(x) == db.Members(x) && after.Managers(x) == db.Managers(x)
  }

  lemma SameUuids(gs: Groups, id: GroupId, g: Group)
    requires id in gs && g.uuid == gs[id].uuid
    ensures Uuids(gs[id := g]) == Uuids(gs)
  {
    forall x ensures x in Uuids(gs[id := g]) <==> x in Uuids(gs) {
      if x in Uuids(gs) {
        var j :| j in gs && gs[j].uuid == x;
        assert j in gs[id := g] && gs[id := g][j].uuid == x;
      }
    }
  }

  lemma SameIndex(db: Db, after: Db, gs: Groups, id: GroupId, g: Group)
    requires IndexAgrees(db, gs) && after.index == db.index && id in gs && g.uuid == gs[id].uuid
    ensures IndexAgrees(after, gs[id := g])
  {
    hide IndexKey;
    forall k | k in after.index ensures exists j :: j in gs[id := g] && k == IndexKey(j) {
      var j :| j in gs && k == IndexKey(j);
      assert j in gs[id := g];
    }
  }

  lemma StillValid(gs: Groups, id: GroupId, g: Group)
    requires ValidGroups(gs) && id in gs && g.uuid == gs[id].uuid && ValidGroup(id, g)
    ensures ValidGroups(gs[id := g])
  {
    hide ValidGroup;
    var gs2 := gs[id := g];
    forall x, y | x in gs2 && y in gs2 && gs2[x].uuid == gs2[y].uuid ensures x == y {
      assert gs[x].uuid == gs2[x].uuid && gs[y].uuid == gs2[y].uuid;
    }
  }

  /** Changing one group's records to those of a new roster changes that roster. */
  lemma Lift(db: Db, gs: Groups, after: Db, id: GroupId, g: Group)
    requires RolesAgree(db, gs) && id in gs && OnlyGroup(db, after, g.uuid)
    requires g.uuid == gs[id].uuid && ValidGroup(id, g) && GroupAgrees(after, g)
    ensures RolesAgree(after, gs[id := g])
  {
    SameIndex(db, after, gs, id, g);
    SameUuids(gs, id, g);
    StillValid(gs, id, g);
    UuidIn(gs, id);
    hide IndexAgrees, Uuids, Entries, Privileged, ValidGroup, IndexKey;
    var gs2 := gs[id := g];
    forall j | j in gs2 ensures GroupAgrees(after, gs2[j]) {
      if j != id { OtherGroup(db, gs, after, id, j); }
    }
  }

  lemma OtherGroup(db: Db, gs: Groups, after: Db, id: GroupId, j: GroupId)
    requires RolesAgree(db, gs) && id in gs && j in gs && j != id && OnlyGroup(db, after, gs[id].uuid)
    ensures GroupAgrees(after, gs[j])
  {
    hide IndexAgrees, Uuids, Entries, Privileged, ValidGroup, IndexKey;
    assert gs[j].uuid != gs[id].uuid && GroupAgrees(db, gs[j]);
  }

  lemma UuidIn(gs: Groups, id: GroupId)
    requires id in gs
    ensures gs[id].uuid in Uuids(gs)
  {
  }

  lemma GroupOf(db: Db, gs: Groups, id: GroupId)
    requires RolesAgree(db, gs) && id in gs
    ensures IndexKey(id) in db.index && db.index[IndexKey(id)] == gs[id].uuid
    ensures ValidGroup(id, gs[id]) && GroupAgrees(db, gs[id])
    ensures OWNER != MANAGER && MANAGER != MEMBER && OWNER != MEMBER
    ensures NoChar(OWNER, ':') && NoChar(MANAGER, ':') && NoChar(MEMBER, ':')
  {
    RolesHaveNoColon(OWNER);
    RolesHaveNoColon(MANAGER);
    RolesHaveNoColon(MEMBER);
    assert |OWNER| == 2 && |MANAGER| == 3 && |MEMBER| == 2 && OWNER[0] != MEMBER[0];
  }

  lemma PrivilegedIn(roles: map<string, string>, u: string)
    ensures u in Privileged(roles) <==> u in roles && roles[u] != MEMBER
    ensures u in Privileged(roles) ==> Privileged(roles)[u] == roles[u]
  {
  }

  lemma EmptyRoster(u: string)
    ensures Entries(map[u := OWNER]) == {MemberEntry(u, OWNER)} && Privileged(map[u := OWNER]) == map[u := OWNER]
  {
    assert OWNER != MEMBER by { assert OWNER[0] != MEMBER[0]; }
    EntriesAdd(map[], u, OWNER);
    assert map[][u := OWNER] == map[u := OWNER] && Entries(map[]) == {} && Privileged(map[]) == map[];
  }

  // ---------- one lemma per request ----------

  lemma JoinRecords(db: Db, op: Op)
    requires (op.AddMember? || op.Accept?) && Runs(db, op)
    ensures var uuid := db.index[IndexKey(op.id)];
            && OnlyGroup(db, Apply(db, op), uuid)
            && Apply(db, op).Members(uuid) == db.Members(uuid) + {MemberEntry(op.user, MEMBER)}
            && Apply(db, op).Managers(uuid) == db.Managers(uuid)
  {
    hide MemberEntry, IndexKey, GroupEntry;
  }

  lemma AddMemberKeeps(db: Db, gs: Groups, op: Op)
    requires RolesAgree(db, gs) && (op.AddMember? || op.Accept?) && op.id in gs && Guard(gs, op)
    ensures Runs(db, op) && RolesAgree(Apply(db, op), Next(gs, op))
  {
    hide MemberEntry, IndexKey, GroupEntry, NameOk, NoChar, Entries, Privileged, Uuids, IndexAgrees;
    GroupOf(db, gs, op.id);
    var g, user, after := gs[op.id], op.user, Apply(db, op);
    EntryIn(g.roles, user, MEMBER);
    JoinRecords(db, op);
    if user in g.roles {
      assert db.Members(g.uuid) + {MemberEntry(user, MEMBER)} == db.Members(g.uuid);
      hide RolesAgree, Apply, Db.SAddMember, Db.SAddList;
      Lift(db, gs, after, op.id, g);
      assert gs[op.id := g] == gs;
    } else {
      hide RolesAgree, Apply, Db.SAddMember, Db.SAddList;
      EntriesAdd(g.roles, user, MEMBER);
      Lift(db, gs, after, op.id, g.(roles := g.roles[user := MEMBER]));
    }
  }

  lemma ExpelledRecords(db: Db, uuid: string, e: string, user: string, entry: string)
    ensures var after := Expelled(db.SRemMember(uuid, e), uuid, user, entry);
            && OnlyGroup(db, after, uuid)
            && after.Members(uuid) == db.Members(uuid) - {e} && after.Managers(uuid) == db.Managers(uuid) - {user}
  {
  }

  lemma PromotedRecords(db: Db, uuid: string, user: string)
    ensures var after := db.HSetManager(uuid, user, MANAGER)
                         .SRemMember(uuid, MemberEntry(user, MEMBER)).SAddMember(uuid, MemberEntry(user, MANAGER));
            && OnlyGroup(db, after, uuid)
            && after.Members(uuid) == db.Members(uuid) - {MemberEntry(user, MEMBER)} + {MemberEntry(user, MANAGER)}
            && after.Managers(uuid) == db.Managers(uuid)[user := MANAGER]
  {
    hide MemberEntry;
  }

  lemma NewGroupRecords(db: Db, id: GroupId, uuid: string)
    requires IndexKey(id) !in db.index
    ensures var after := Apply(db, AddGroup(id.owner, id.name, uuid));
            && after.index == db.index[IndexKey(id) := uuid]
            && after.Members(uuid) == db.Members(uuid) + {MemberEntry(id.owner, OWNER)}
            && after.Managers(uuid) == db.Managers(uuid)[id.owner := OWNER]
            && forall x | x != uuid :: after.Members(x) == db.Members(x) && after.Managers(x) == db.Managers(x)
  {
    hide MemberEntry, GroupEntry, IndexKey;
  }

  /** A member entry removed together with its hash field is a user removed. */
  lemma ExpelKeeps(db: Db, gs: Groups, id: GroupId, user: string, entry: string)
    requires RolesAgree(db, gs) && id in gs && user in gs[id].roles && user != id.owner
    ensures var uuid := gs[id].uuid;
            RolesAgree(Expelled(db.SRemMember(uuid, MemberEntry(user, gs[id].roles[user])), uuid, user, entry),
                       Without(gs, id, user))
  {
    hide MemberEntry, IndexKey, GroupEntry, NameOk, NoChar, Entries, Privileged, Uuids, IndexAgrees;
    hide Expelled, Db.SRemMember;
    GroupOf(db, gs, id);
    var g := gs[id];
    EntriesRemove(g.roles, user);
    ExpelledRecords(db, g.uuid, MemberEntry(user, g.roles[user]), user, entry);
    Lift(db, gs, Expelled(db.SRemMember(g.uuid, MemberEntry(user, g.roles[user])), g.uuid, user, entry), id, g.(roles := g.roles - {user}));
  }

  lemma DelMemberKeeps(db: Db, gs: Groups, op: Op)
    requires RolesAgree(db, gs) && op.DelMember? && op.id in gs
    ensures Runs(db, op) && RolesAgree(Apply(db, op), Next(gs, op))
  {
    hide MemberEntry, IndexKey, GroupEntry, NameOk, NoChar, Entries, Privileged, Uuids, IndexAgrees;
    GroupOf(db, gs, op.id);
    var g := gs[op.id];
    EntryIn(g.roles, op.user, MEMBER);
    EntryIn(g.roles, op.user, MANAGER);
    PrivilegedIn(g.roles, op.user);
    if op.user in g.roles && op.user != op.id.owner {
      ExpelKeeps(db, gs, op.id, op.user, EntryOf(op.id));
      ExpelKeeps(db, gs, op.id, op.user, GroupEntry(op.id.owner, op.id.name));
    }
  }

  lemma LeaveKeeps(db: Db, gs: Groups, op: Op)
    requires RolesAgree(db, gs) && op.Leave? && Allowed(gs, op) && Guard(gs, op)
    ensures Runs(db, op) && RolesAgree(Apply(db, op), Next(gs, op))
  {
    hide MemberEntry, IndexKey, GroupEntry, NameOk, NoChar, Entries, Privileged, Uuids, IndexAgrees, EntryUser, EntryRole;
    GroupOf(db, gs, op.id);
    var v, r := Leaver(op.user, op.statue), LeaverRole(op.user, op.statue);
    EntryParts(op.user, op.statue);
    EntryIn(gs[op.id].roles, v, r);
    if HasRole(gs, op.id, v, r) {
      if v == op.user {
        ExpelKeeps(db, gs, op.id, v, EntryOf(op.id));
      } else {
        OtherLeaves(db, gs, op.id, op.user, v, EntryOf(op.id));
      }
    }
  }

  /** The entry of another member goes; the hash had neither of the two. */
  lemma OtherLeaves(db: Db, gs: Groups, id: GroupId, user: string, v: string, entry: string)
    requires RolesAgree(db, gs) && id in gs && HasRole(gs, id, v, MEMBER) && !IsPrivileged(gs, id, user) && v != id.owner
    ensures RolesAgree(Expelled(db.SRemMember(gs[id].uuid, MemberEntry(v, MEMBER)), gs[id].uuid, user, entry),
                       Without(gs, id, v))
  {
    hide MemberEntry, IndexKey, GroupEntry, NameOk, NoChar, Entries, Privileged, Uuids, IndexAgrees;
    hide Expelled, Db.SRemMember;
    GroupOf(db, gs, id);
    var g := gs[id];
    EntriesRemove(g.roles, v);
    PrivilegedIn(g.roles, v);
    PrivilegedIn(g.roles, user);
    ExpelledRecords(db, g.uuid, MemberEntry(v, MEMBER), user, entry);
    assert db.Managers(g.uuid) - {user} == Privileged(g.roles) == Privileged(g.roles) - {v};
    Lift(db, gs, Expelled(db.SRemMember(g.uuid, MemberEntry(v, MEMBER)), g.uuid, user, entry), id, g.(roles := g.roles - {v}));
  }

  lemma AddManagerKeeps(db: Db, gs: Groups, op: Op)
    requires RolesAgree(db, gs) && op.AddManager? && op.id in gs && Guard(gs, op)
    ensures Runs(db, op) && RolesAgree(Apply(db, op), Next(gs, op))
  {
    hide MemberEntry, IndexKey, GroupEntry, NameOk, NoChar, Entries, Privileged, Uuids, IndexAgrees;
    GroupOf(db, gs, op.id);
    var g, user, after := gs[op.id], op.user, Apply(db, op);
    PrivilegedIn(g.roles, user);
    if user in g.roles {
      EntriesReplace(g.roles, user, MANAGER);
      if g.roles[user] == MANAGER { assert g.roles[user := MANAGER] == g.roles; }
    } else {
      EntryIn(g.roles, user, MEMBER);
      EntriesAdd(g.roles, user, MANAGER);
      assert db.Members(g.uuid) - {MemberEntry(user, MEMBER)} == db.Members(g.uuid);
    }
    PromotedRecords(db, g.uuid, user);
    hide Db.SRemMember, Db.SAddMember, RolesAgree;
    Lift(db, gs, after, op.id, g.(roles := g.roles[user := MANAGER]));
  }

  lemma DelManagerKeeps(db: Db, gs: Groups, op: Op)
    requires RolesAgree(db, gs) && op.DelManager? && op.id in gs && Guard(gs, op)
    ensures Runs(db, op) && RolesAgree(Apply(db, op), Next(gs, op))
  {
    hide MemberEntry, IndexKey, GroupEntry, NameOk, NoChar, Entries, Privileged, Uuids, IndexAgrees;
    GroupOf(db, gs, op.id);
    var g, user := gs[op.id], op.user;
    PrivilegedIn(g.roles, user);
    if HasRole(gs, op.id, user, MANAGER) {
      EntriesReplace(g.roles, user, MEMBER);
      Lift(db, gs, Apply(db, op), op.id, g.(roles := g.roles[user := MEMBER]));
    }
  }

  lemma KnownKey(db: Db, gs: Groups, id: GroupId)
    requires RolesAgree(db, gs) && NameOk(id.owner)
    ensures IndexKey(id) in db.index <==> id in gs
  {
    if IndexKey(id) in db.index {
      var j :| j in gs && IndexKey(id) == IndexKey(j);
      assert ValidGroup(j, gs[j]);
      IndexKeyInjective(id, j);
    }
  }

  lemma AddUuid(gs: Groups, id: GroupId, g: Group)
    requires id !in gs
    ensures Uuids(gs[id := g]) == Uuids(gs) + {g.uuid}
  {
    forall x ensures x in Uuids(gs[id := g]) <==> x in Uuids(gs) || x == g.uuid {
      if x in Uuids(gs) {
        var j :| j in gs && gs[j].uuid == x;
        assert j in gs[id := g] && gs[id := g][j].uuid == x;
      } else if x == g.uuid {
        assert id in gs[id := g] && gs[id := g][id].uuid == x;
      }
    }
  }

  lemma AddIndexForth(db: Db, gs: Groups, id: GroupId, g: Group, after: Db)
    requires IndexAgrees(db, gs) && IndexKey(id) !in db.index && after.index == db.index[IndexKey(id) := g.uuid]
    ensures forall j | j in gs[id := g] :: IndexKey(j) in after.index && after.index[IndexKey(j)] == gs[id := g][j].uuid
  {
    hide IndexKey;
    forall j | j in gs[id := g] ensures IndexKey(j) in after.index && after.index[IndexKey(j)] == gs[id := g][j].uuid {
      if j != id { assert IndexKey(j) in db.index; }
    }
  }

  lemma AddIndexBack(db: Db, gs: Groups, id: GroupId, g: Group, after: Db, k: string)
    requires IndexAgrees(db, gs) && after.index == db.index[IndexKey(id) := g.uuid] && k in after.index
    ensures exists j :: j in gs[id := g] && k == IndexKey(j)
  {
    hide IndexKey;
    if k == IndexKey(id) {
      assert id in gs[id := g];
    } else {
      var j :| j in gs && k == IndexKey(j);
      assert j in gs[id := g];
    }
  }

  lemma AddIndex(db: Db, gs: Groups, id: GroupId, g: Group, after: Db)
    requires RolesAgree(db, gs) && NameOk(id.owner) && id !in gs && after.index == db.index[IndexKey(id) := g.uuid]
    ensures IndexAgrees(after, gs[id := g])
  {
    KnownKey(db, gs, id);
    AddIndexForth(db, gs, id, g, after);
    hide IndexKey, RolesAgree, NameOk;
    forall k | k in after.index ensures exists j :: j in gs[id := g] && k == IndexKey(j) {
      AddIndexBack(db, gs, id, g, after, k);
    }
  }

  lemma AddValid(gs: Groups, id: GroupId, g: Group)
    requires ValidGroups(gs) && id !in gs && ValidGroup(id, g) && g.uuid !in Uuids(gs)
    ensures ValidGroups(gs[id := g])
  {
    hide ValidGroup;
    forall j | j in gs ensures gs[j].uuid != g.uuid { UuidIn(gs, j); }
    hide Uuids;
    var gs2 := gs[id := g];
    forall x, y | x in gs2 && y in gs2 && gs2[x].uuid == gs2[y].uuid ensures x == y {
      assert x != id ==> gs2[x] == gs[x];
      assert y != id ==> gs2[y] == gs[y];
    }
  }

  /** A new group with a fresh uuid. */
  lemma AddAgrees(db: Db, gs: Groups, id: GroupId, g: Group, after: Db)
    requires RolesAgree(db, gs) && id !in gs && ValidGroup(id, g) && g.uuid !in Uuids(gs)
    requires after.index == db.index[IndexKey(id) := g.uuid] && GroupAgrees(after, g)
    requires forall x | x != g.uuid :: after.Members(x) == db.Members(x) && after.Managers(x) == db.Managers(x)
    ensures RolesAgree(after, gs[id := g])
  {
    hide IndexKey, Entries, Privileged, IndexAgrees, ValidGroups, Db.Members, Db.Managers, Uuids;
    AddValid(gs, id, g);
    AddUuid(gs, id, g);
    AddIndex(db, gs, id, g, after);
    forall j | j in gs ensures GroupAgrees(after, gs[j]) {
      UuidIn(gs, j);
      assert GroupAgrees(db, gs[j]);
    }
  }

  lemma AddGroupKeeps(db: Db, gs: Groups, op: Op)
    requires RolesAgree(db, gs) && op.AddGroup? && Allowed(gs, op)
    ensures RolesAgree(Apply(db, op), Next(gs, op))
  {
    var id, g := GroupId(op.user, op.name), Group(op.uuid, map[op.user := OWNER]);
    KnownKey(db, gs, id);
    if id !in gs {
      EmptyRoster(op.user);
      assert db.Members(op.uuid) == {} && db.Managers(op.uuid) == map[];
      NewGroupRecords(db, id, op.uuid);
      hide MemberEntry, IndexKey, NameOk, Entries, Privileged, Uuids, RolesAgree, Apply, Db.Members, Db.Managers;
      AddAgrees(db, gs, id, g, Apply(db, op));
    }
  }

  lemma DropUuid(gs: Groups, id: GroupId)
    requires ValidGroups(gs) && id in gs
    ensures Uuids(gs - {id}) == Uuids(gs) - {gs[id].uuid}
  {
    hide ValidGroup;
    forall x ensures x in Uuids(gs - {id}) <==> x in Uuids(gs) && x != gs[id].uuid {
      if x in Uuids(gs) && x != gs[id].uuid {
        var j :| j in gs && gs[j].uuid == x;
        assert j in gs - {id};
      }
    }
  }

  lemma DifferentKeys(gs: Groups, x: GroupId, y: GroupId)
    requires ValidGroups(gs) && x in gs && y in gs && x != y
    ensures IndexKey(x) != IndexKey(y)
  {
    assert ValidGroup(x, gs[x]) && ValidGroup(y, gs[y]);
    hide IndexKey;
    if IndexKey(x) == IndexKey(y) { IndexKeyInjective(x, y); }
  }

  lemma DropIndexBack(db: Db, gs: Groups, id: GroupId, k: string)
    requires IndexAgrees(db, gs) && k in db.index && k != IndexKey(id)
    ensures exists j :: j in gs - {id} && k == IndexKey(j)
  {
    hide IndexKey;
    var j :| j in gs && k == IndexKey(j);
    assert j in gs - {id};
  }

  lemma DropIndex(db: Db, gs: Groups, id: GroupId, after: Db)
    requires ValidGroups(gs) && IndexAgrees(db, gs) && id in gs && after.index == db.index - {IndexKey(id)}
    ensures IndexAgrees(after, gs - {id})
  {
    forall j | j in gs && j != id ensures IndexKey(j) != IndexKey(id) { DifferentKeys(gs, j, id); }
    hide IndexKey, ValidGroups, ValidGroup, NameOk;
    forall j | j in gs - {id} ensures IndexKey(j) in after.index && after.index[IndexKey(j)] == (gs - {id})[j].uuid {
      assert j in gs && j != id;
    }
    forall k | k in after.index ensures exists j :: j in gs - {id} && k == IndexKey(j) { DropIndexBack(db, gs, id, k); }
  }

  lemma DropAgrees(db: Db, gs: Groups, id: GroupId, after: Db)
    requires RolesAgree(db, gs) && id in gs && after.index == db.index - {IndexKey(id)}
    requires after.Members(gs[id].uuid) == {} && after.Managers(gs[id].uuid) == map[]
    requires forall x | x != gs[id].uuid :: after.Members(x) == db.Members(x) && after.Managers(x) == db.Managers(x)
    ensures RolesAgree(after, gs - {id})
  {
    hide IndexKey, Entries, Privileged, IndexAgrees, ValidGroup, Uuids, Db.Members, Db.Managers;
    DropUuid(gs, id);
    DropIndex(db, gs, id, after);
    forall j | j in gs && j != id ensures GroupAgrees(after, gs[j]) {
      assert gs[j].uuid != gs[id].uuid && GroupAgrees(db, gs[j]);
    }
  }

  lemma DisbandClears(db: Db, id: GroupId)
    requires IndexKey(id) in db.index
    ensures var after, uuid := Apply(db, Disband(id)), db.index[IndexKey(id)];
            && after.index == db.index - {IndexKey(id)}
            && after.Members(uuid) == {} && after.Managers(uuid) == map[]
            && forall x | x != uuid :: after.Members(x) == db.Members(x) && after.Managers(x) == db.Managers(x)
  {
    hide IndexKey, EntryUser, GroupEntry;
  }

  lemma DisbandKeeps(db: Db, gs: Groups, op: Op)
    requires RolesAgree(db, gs) && op.Disband? && op.id in gs
    ensures Runs(db, op) && RolesAgree(Apply(db, op), Next(gs, op))
  {
    GroupOf(db, gs, op.id);
    DisbandClears(db, op.id);
    hide IndexKey, RolesAgree, Apply, Db.Members, Db.Managers;
    DropAgrees(db, gs, op.id, Apply(db, op));
  }

  /** Under its guard, every request takes agreeing records to records that agree with the new rosters. */
  lemma RolesKept(db: Db, gs: Groups, op: Op)
    requires RolesAgree(db, gs) && Allowed(gs, op) && Guard(gs, op)
    ensures Runs(db, op) && RolesAgree(Apply(db, op), Next(gs, op))
  {
    hide MemberEntry, IndexKey, GroupEntry, NameOk, NoChar, Entries, Privileged, Uuids, IndexAgrees;
    hide RolesAgree, Apply, Next;
    match op
    case AddGroup(_, _, _) => AddGroupKeeps(db, gs, op);
    case Accept(_, _) => AddMemberKeeps(db, gs, op);
    case AddMember(_, _) => AddMemberKeeps(db, gs, op);
    case DelMember(_, _, _) => DelMemberKeeps(db, gs, op);
    case Leave(_, _, _) => LeaveKeeps(db, gs, op);
    case AddManager(_, _) => AddManagerKeeps(db, gs, op);
    case DelManager(_, _) => DelManagerKeeps(db, gs, op);
    case Disband(_) => DisbandKeeps(db, gs, op);
  }
}
