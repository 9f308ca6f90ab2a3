/**
  The four Redis records that hold the groups, the commands of src/Server/Redis/RedisClient.cc
  as functions on them, and what each group request of src/Server/net/connection.cc does to them.
*/
module GroupStore {
  import opened Names

  /** The records: owner index, member sets, manager hashes, and the users' group lists.
      Redis treats a missing key as an empty set or hash. */
  datatype Db = Db(
    index: map<string, string>,
    members: map<string, set<string>>,
    managers: map<string, map<string, string>>,
    lists: map<string, set<string>>)
  {
    function Members(uuid: string): set<string> {
      if uuid in members then members[uuid] else {}
    }

    function Managers(uuid: string): map<string, string> {
      if uuid in managers then managers[uuid] else map[]
    }

    function List(user: string): set<string> {
      if user in lists then lists[user] else {}
    }

    // The commands, on values. Removing what is not there changes nothing.

    function SAddMember(uuid: string, e: string): Db {
      this.(members := members[uuid := Members(uuid) + {e}])
    }

    function SRemMember(uuid: string, e: string): Db {
      if e in Members(uuid) then this.(members := members[uuid := Members(uuid) - {e}]) else this
    }

    function HSetManager(uuid: string, user: string, role: string): Db {
      this.(managers := managers[uuid := Managers(uuid)[user := role]])
    }

    function HDelManager(uuid: string, user: string): Db {
      if user in Managers(uuid) then this.(managers := managers[uuid := Managers(uuid) - {user}]) else this
    }

    function SAddList(user: string, e: string): Db {
      this.(lists := lists[user := List(user) + {e}])
    }

    function SRemList(user: string, e: string): Db {
      if e in List(user) then this.(lists := lists[user := List(user) - {e}]) else this
    }
  }

  const EMPTY := Db(map[], map[], map[], map[])

  /** A group request, as its handler reads it. */
  datatype Op =
    | AddGroup(user: string, name: string, uuid: string)      // add_group
    | Accept(id: GroupId, user: string)                       // group_decide, an application granted
    | AddMember(id: GroupId, user: string)                    // add_member
    | DelMember(id: GroupId, user: string, statue: string)    // del_member
    | Leave(id: GroupId, user: string, statue: string)        // leave_group
    | AddManager(id: GroupId, user: string)                   // add_manager
    | DelManager(id: GroupId, user: string)                   // del_manager
    | Disband(id: GroupId)                                    // disband_froup

  /** The handlers read the uuid of an existing group. */
  predicate Runs(db: Db, op: Op) {
    op.AddGroup? || IndexKey(op.id) in db.index
  }

  /** The records after a request. */
  function Apply(db: Db, op: Op): Db
    requires Runs(db, op)
  {
    match op
    case AddGroup(user, name, uuid) =>
      var key := IndexKey(GroupId(user, name));
      if key in db.index then db
      else
        db.(index := db.index[key := uuid])
        .SAddMember(uuid, MemberEntry(user, OWNER))
        .SAddList(user, GroupEntry(name, user))
        .HSetManager(uuid, user, OWNER)
    case Accept(id, user) =>
      var uuid := db.index[IndexKey(id)];
      db.SAddMember(uuid, MemberEntry(user, MEMBER)).SAddList(user, GroupEntry(id.name, id.owner))
    case AddMember(id, user) =>
      var uuid := db.index[IndexKey(id)];
      if MemberEntry(user, MEMBER) in db.Members(uuid) then db
      else db.SAddMember(uuid, MemberEntry(user, MEMBER)).SAddList(user, GroupEntry(id.name, id.owner))
    case DelMember(id, user, statue) =>
      var uuid := db.index[IndexKey(id)];
      if statue == OWNER then
        if MemberEntry(user, MEMBER) in db.Members(uuid) then
          Expelled(db.SRemMember(uuid, MemberEntry(user, MEMBER)), uuid, user, GroupEntry(id.name, id.owner))
        else if MemberEntry(user, MANAGER) in db.Members(uuid) then
          Expelled(db.SRemMember(uuid, MemberEntry(user, MANAGER)), uuid, user, GroupEntry(id.name, id.owner))
        else db
      else if statue == MANAGER then
        if user in db.Managers(uuid) && db.Managers(uuid)[user] in {OWNER, MANAGER} then db
        else if MemberEntry(user, MEMBER) in db.Members(uuid) then
          // the manager branch passes the two names in the other order
          Expelled(db.SRemMember(uuid, MemberEntry(user, MEMBER)), uuid, user, GroupEntry(id.owner, id.name))
        else db
      else db
    case Leave(id, user, statue) =>
      var uuid := db.index[IndexKey(id)];
      if MemberEntry(user, statue) in db.Members(uuid) then
        Expelled(db.SRemMember(uuid, MemberEntry(user, statue)), uuid, user, GroupEntry(id.name, id.owner))
      else db
    case AddManager(id, user) =>
      var uuid := db.index[IndexKey(id)];
      var promoted := db.HSetManager(uuid, user, MANAGER);
      if user in db.Managers(uuid) then promoted
      else promoted.SRemMember(uuid, MemberEntry(user, MEMBER)).SAddMember(uuid, MemberEntry(user, MANAGER))
    case DelManager(id, user) =>
      var uuid := db.index[IndexKey(id)];
      if user !in db.Managers(uuid) then db
      else
        db.HDelManager(uuid, user)
        .SRemMember(uuid, MemberEntry(user, MANAGER)).SAddMember(uuid, MemberEntry(user, MEMBER))
    case Disband(id) =>
      var uuid := db.index[IndexKey(id)];
      var users := set e | e in db.Members(uuid) :: EntryUser(e);
      Db(db.index - {IndexKey(id)}, db.members - {uuid}, db.managers - {uuid},
         map u | u in db.lists ::
           if u in users || u == id.owner then db.List(u) - {GroupEntry(id.name, id.owner)} else db.List(u))
  }

  /** The two removals that follow a removed member entry. */
  function Expelled(db: Db, uuid: string, user: string, entry: string): Db {
    db.SRemList(user, entry).HDelManager(uuid, user)
  }
}
