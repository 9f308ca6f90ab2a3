/** The group commands of RedisClient.cc and the group handlers of connection.cc, as they change the store. */
module GroupServer {
  import opened Names
  import opened GroupStore
  import opened GroupRuns

  class RedisClient {
    var index: map<string, string>
    var members: map<string, set<string>>
    var managers: map<string, map<string, string>>
    var lists: map<string, set<string>>

    ghost function Snapshot(): Db
      reads this
    {
      Db(index, members, managers, lists)
    }

    constructor ()
      ensures Snapshot() == EMPTY
    {
      index, members, managers, lists := map[], map[], map[], map[];
    }

    method GroupExists(owner: string, name: string) returns (there: bool)
      ensures there <==> IndexKey(GroupId(owner, name)) in index
    {
      there := "group_owner:" + owner + ":" + name in index;
    }

    /** Reading the uuid of a group that exists. */
    method GetGroupUuid(owner: string, name: string) returns (uuid: string)
      requires IndexKey(GroupId(owner, name)) in index
      ensures uuid == index[IndexKey(GroupId(owner, name))]
    {
      uuid := index["group_owner:" + owner + ":" + name];
    }

    method AddGroup(uuid: string, owner: string, name: string)
      modifies this`index
      ensures index == old(index)[IndexKey(GroupId(owner, name)) := uuid]
    {
      index := index["group_owner:" + owner + ":" + name := uuid];
    }

    method DelGroup(owner: string, name: string)
      modifies this`index
      ensures index == old(index) - {IndexKey(GroupId(owner, name))}
    {
      index := index - {"group_owner:" + owner + ":" + name};
    }

    /** SADD: true when the element is new. */
    method SetGroupMember(uuid: string, e: string) returns (added: bool)
      modifies this`members
      ensures Snapshot() == old(Snapshot()).SAddMember(uuid, e)
      ensures added <==> e !in old(Snapshot()).Members(uuid)
    {
      var s := if uuid in members then members[uuid] else {};
      added := e !in s;
      members := members[uuid := s + {e}];
    }

    /** SREM: true when the element was there. */
    method RemoveGroupMember(uuid: string, e: string) returns (removed: bool)
      modifies this`members
      ensures Snapshot() == old(Snapshot()).SRemMember(uuid, e)
      ensures removed <==> e in old(Snapshot()).Members(uuid)
    {
      removed := uuid in members && e in members[uuid];
      if removed { members := members[uuid := members[uuid] - {e}]; }
    }

    /** HSET: true when the field is new; an existing field is overwritten all the same. */
    method SetGroupManager(uuid: string, user: string, role: string) returns (added: bool)
      modifies this`managers
      ensures Snapshot() == old(Snapshot()).HSetManager(uuid, user, role)
      ensures added <==> user !in old(Snapshot()).Managers(uuid)
    {
      var h := if uuid in managers then managers[uuid] else map[];
      added := user !in h;
      managers := managers[uuid := h[user := role]];
    }

    /** HDEL: true when the field was there. */
    method RemoveGroupManager(uuid: string, user: string) returns (removed: bool)
      modifies this`managers
      ensures Snapshot() == old(Snapshot()).HDelManager(uuid, user)
      ensures removed <==> user in old(Snapshot()).Managers(uuid)
    {
      removed := uuid in managers && user in managers[uuid];
      if removed { managers := managers[uuid := managers[uuid] - {user}]; }
    }

    /** The role of a privileged user; an absent field reads as an empty string. */
    method GetGroupManager(uuid: string, user: string) returns (role: string)
      ensures role == if user in Snapshot().Managers(uuid) then Snapshot().Managers(uuid)[user] else ""
    {
      role := if uuid in managers && user in managers[uuid] then managers[uuid][user] else "";
    }

    method GetGroupManagers(uuid: string) returns (h: map<string, string>)
      ensures h == Snapshot().Managers(uuid)
    {
      h := if uuid in managers then managers[uuid] else map[];
    }

    /** SMEMBERS: every element once, in some order. */
    method GetGroupMember(uuid: string) returns (order: seq<string>)
      ensures Enumerates(order, Snapshot().Members(uuid))
      ensures forall i, j | 0 <= i < j < |order| :: order[i] != order[j]
    {
      var s := if uuid in members then members[uuid] else {};
      var rest := s;
      order := [];
      while rest != {}
        invariant rest <= s
        invariant forall i | 0 <= i < |order| :: order[i] in s && order[i] !in rest
        invariant forall i, j | 0 <= i < j < |order| :: order[i] != order[j]
        invariant forall e | e in s && e !in rest :: exists i :: 0 <= i < |order| && order[i] == e
        decreases rest
      {
        var e :| e in rest;
        rest := rest - {e};
        ghost var before := order;
        order := order + [e];
        forall x | x in s && x !in rest ensures exists i :: 0 <= i < |order| && order[i] == x {
          if x == e {
            assert order[|before|] == x;
          } else {
            var i :| 0 <= i < |before| && before[i] == x;
            assert order[i] == x;
          }
        }
      }
    }

    method DelGroupMember(uuid: string)
      modifies this`members
      ensures members == old(members) - {uuid}
    {
      members := members - {uuid};
    }

    method DelGroupManager(uuid: string)
      modifies this`managers
      ensures managers == old(managers) - {uuid}
    {
      managers := managers - {uuid};
    }

    method UserSetGroups(user: string, owner: string, name: string) returns (added: bool)
      modifies this`lists
      ensures Snapshot() == old(Snapshot()).SAddList(user, GroupEntry(name, owner))
      ensures added <==> GroupEntry(name, owner) !in old(Snapshot()).List(user)
    {
      var s := if user in lists then lists[user] else {};
      var e := name + "   ---" + owner;
      added := e !in s;
      lists := lists[user := s + {e}];
    }

    method UserRemoveGroups(user: string, name: string, owner: string) returns (removed: bool)
      modifies this`lists
      ensures Snapshot() == old(Snapshot()).SRemList(user, GroupEntry(name, owner))
      ensures removed <==> GroupEntry(name, owner) in old(Snapshot()).List(user)
    {
      var e := name + "   ---" + owner;
      removed := user in lists && e in lists[user];
      if removed { lists := lists[user := lists[user] - {e}]; }
    }
  }

  class Connection {
    const redis: RedisClient

    constructor (redis: RedisClient)
      ensures this.redis == redis
    {
      this.redis := redis;
    }

    /** `generate_uuid` is the parameter. */
    method AddGroup(username: string, name: string, uuid: string) returns (success: bool)
      modifies redis
      ensures redis.Snapshot() == Apply(old(redis.Snapshot()), Op.AddGroup(username, name, uuid))
      ensures success <==> IndexKey(GroupId(username, name)) !in old(redis.index)
    {
      hide MemberEntry, GroupEntry;
      var there := redis.GroupExists(username, name);
      if there { return false; }
      redis.AddGroup(uuid, username, name);
      var _ := redis.SetGroupMember(uuid, MemberEntry(username, OWNER));
      var _ := redis.UserSetGroups(username, username, name);
      var _ := redis.SetGroupManager(uuid, username, OWNER);
      success := true;
    }

    /** `granted` is the answer to an application; `account` tells whether the applicant still exists. */
    method GroupDecide(owner: string, name: string, user: string, granted: bool, account: bool) returns (decide: bool)
      requires IndexKey(GroupId(owner, name)) in redis.index
      modifies redis
      ensures decide <==> granted && account
      ensures redis.Snapshot() == if decide then Apply(old(redis.Snapshot()), Accept(GroupId(owner, name), user)) else old(redis.Snapshot())
    {
      hide MemberEntry, GroupEntry, IndexKey;
      var uuid := redis.GetGroupUuid(owner, name);
      decide := false;
      if granted {
        if !account { return; }
        var _ := redis.SetGroupMember(uuid, MemberEntry(user, MEMBER));
        var _ := redis.UserSetGroups(user, owner, name);
        decide := true;
      }
      var there := redis.GroupExists(owner, name);
      if !there { decide := false; }
    }

    method AddMember(owner: string, name: string, user: string) returns (decide: bool)
      requires IndexKey(GroupId(owner, name)) in redis.index
      modifies redis
      ensures redis.Snapshot() == Apply(old(redis.Snapshot()), Op.AddMember(GroupId(owner, name), user))
      ensures decide <==> MemberEntry(user, MEMBER) !in old(redis.Snapshot()).Members(old(redis.index)[IndexKey(GroupId(owner, name))])
    {
      hide MemberEntry, GroupEntry, IndexKey;
      var uuid := redis.GetGroupUuid(owner, name);
      decide := redis.SetGroupMember(uuid, MemberEntry(user, MEMBER));
      if decide {
        var _ := redis.UserSetGroups(user, owner, name);
      } else {
        assert redis.members == old(redis.members) by {
          assert old(redis.members)[uuid] + {MemberEntry(user, MEMBER)} == old(redis.members)[uuid];
        }
      }
    }

    method DelMember(owner: string, name: string, user: string, statue: string) returns (decide: bool)
      requires IndexKey(GroupId(owner, name)) in redis.index
      modifies redis
      ensures redis.Snapshot() == Apply(old(redis.Snapshot()), Op.DelMember(GroupId(owner, name), user, statue))
      ensures decide <==> redis.members != old(redis.members)
    {
      hide MemberEntry, GroupEntry, IndexKey;
      var uuid := redis.GetGroupUuid(owner, name);
      decide := false;
      if statue == OWNER {
        var removed := redis.RemoveGroupMember(uuid, MemberEntry(user, MEMBER));
        if !removed { removed := redis.RemoveGroupMember(uuid, MemberEntry(user, MANAGER)); }
        if removed {
          var _ := redis.UserRemoveGroups(user, name, owner);
          var _ := redis.RemoveGroupManager(uuid, user);
          decide := true;
        }
      } else if statue == MANAGER {
        var p := redis.GetGroupManager(uuid, user);
        if p == OWNER || p == MANAGER { return false; }
        var removed := redis.RemoveGroupMember(uuid, MemberEntry(user, MEMBER));
        if removed {
          var _ := redis.UserRemoveGroups(user, owner, name);  // the names the other way round
          var _ := redis.RemoveGroupManager(uuid, user);
          decide := true;
        }
      }
    }

    method LeaveGroup(owner: string, name: string, user: string, statue: string) returns (decide: bool)
      requires IndexKey(GroupId(owner, name)) in redis.index
      modifies redis
      ensures redis.Snapshot() == Apply(old(redis.Snapshot()), Leave(GroupId(owner, name), user, statue))
      ensures decide <==> MemberEntry(user, statue) in old(redis.Snapshot()).Members(old(redis.index)[IndexKey(GroupId(owner, name))])
    {
      hide MemberEntry, GroupEntry, IndexKey;
      var uuid := redis.GetGroupUuid(owner, name);
      decide := redis.RemoveGroupMember(uuid, MemberEntry(user, statue));
      if decide {
        var managers := redis.GetGroupManagers(uuid);
        if user in managers {
          var _ := redis.RemoveGroupManager(uuid, user);
        }
        var _ := redis.UserRemoveGroups(user, name, owner);
      }
    }

    method AddManager(owner: string, name: string, user: string) returns (decide: bool)
      requires IndexKey(GroupId(owner, name)) in redis.index
      modifies redis
      ensures redis.Snapshot() == Apply(old(redis.Snapshot()), Op.AddManager(GroupId(owner, name), user))
      ensures decide <==> user !in old(redis.Snapshot()).Managers(old(redis.index)[IndexKey(GroupId(owner, name))])
    {
      hide MemberEntry, GroupEntry, IndexKey;
      var uuid := redis.GetGroupUuid(owner, name);
      decide := redis.SetGroupManager(uuid, user, MANAGER);
      if decide {
        var _ := redis.RemoveGroupMember(uuid, MemberEntry(user, MEMBER));
        var _ := redis.SetGroupMember(uuid, MemberEntry(user, MANAGER));
      }
    }

    method DelManager(owner: string, name: string, user: string) returns (decide: bool)
      requires IndexKey(GroupId(owner, name)) in redis.index
      modifies redis
      ensures redis.Snapshot() == Apply(old(redis.Snapshot()), Op.DelManager(GroupId(owner, name), user))
      ensures decide <==> user in old(redis.Snapshot()).Managers(old(redis.index)[IndexKey(GroupId(owner, name))])
    {
      hide MemberEntry, GroupEntry, IndexKey;
      var uuid := redis.GetGroupUuid(owner, name);
      decide := redis.RemoveGroupManager(uuid, user);
      if decide {
        var _ := redis.RemoveGroupMember(uuid, MemberEntry(user, MANAGER));
        var _ := redis.SetGroupMember(uuid, MemberEntry(user, MEMBER));
      }
    }

    /** The lists after the group's entry was taken from those of some users. */
    ghost function Unlisted(lists: map<string, set<string>>, users: set<string>, entry: string): map<string, set<string>> {
      map u | u in lists :: if u in users then lists[u] - {entry} else lists[u]
    }

    lemma UnlistedStep(lists: map<string, set<string>>, seen: set<string>, user: string, entry: string)
      ensures var l := Unlisted(lists, seen, entry);
              Unlisted(lists, seen + {user}, entry) ==
              if user in l && entry in l[user] then l[user := l[user] - {entry}] else l
    {
      var l := Unlisted(lists, seen, entry);
      if user in l && entry !in l[user] { assert lists[user] - {entry} == l[user]; }
    }

    lemma DisbandIsUnlisted(db: Db, id: GroupId, users: set<string>)
      requires IndexKey(id) in db.index
      requires users == set e | e in db.Members(db.index[IndexKey(id)]) :: EntryUser(e)
      ensures var uuid := db.index[IndexKey(id)];
              Apply(db, Disband(id)) ==
              Db(db.index - {IndexKey(id)}, db.members - {uuid}, db.managers - {uuid},
                 Unlisted(db.lists, users + {id.owner}, GroupEntry(id.name, id.owner)))
    {
      hide IndexKey, EntryUser, GroupEntry, Db.Members;
    }

    method DisbandGroup(name: string, owner: string)
      requires IndexKey(GroupId(owner, name)) in redis.index
      modifies redis
      ensures redis.Snapshot() == Apply(old(redis.Snapshot()), Disband(GroupId(owner, name)))
    {
      hide GroupEntry, IndexKey, EntryUser, Apply, Unlisted;
      var uuid := redis.GetGroupUuid(owner, name);
      var order := redis.GetGroupMember(uuid);
      ghost var entry := GroupEntry(name, owner);
      ghost var seen: set<string> := {};
      assert redis.lists == Unlisted(redis.lists, {}, entry) by { NoneUnlisted(redis.lists, entry); }
      for i := 0 to |order|
        invariant redis.index == old(redis.index) && redis.members == old(redis.members) && redis.managers == old(redis.managers)
        invariant seen == set k | 0 <= k < i :: EntryUser(order[k])
        invariant redis.lists == Unlisted(old(redis.lists), seen, entry)
      {
        var mem := EntryUser(order[i]);
        UnlistedStep(old(redis.lists), seen, mem, entry);
        var _ := redis.UserRemoveGroups(mem, name, owner);
        seen := seen + {mem};
      }
      redis.DelGroup(owner, name);
      UnlistedStep(old(redis.lists), seen, owner, entry);
      var _ := redis.UserRemoveGroups(owner, name, owner);
      redis.DelGroupManager(uuid);
      redis.DelGroupMember(uuid);
      DisbandIsUnlisted(old(redis.Snapshot()), GroupId(owner, name), seen);
    }

    lemma NoneUnlisted(lists: map<string, set<string>>, entry: string)
      ensures Unlisted(lists, {}, entry) == lists
    {
    }

    /** `group_members`: the map sent to the client. */
    method GroupMembers(owner: string, name: string) returns (shown: map<string, string>, ghost order: seq<string>)
      requires IndexKey(GroupId(owner, name)) in redis.index
      ensures Enumerates(order, redis.Snapshot().Members(redis.index[IndexKey(GroupId(owner, name))]))
      ensures shown == Shown(order)
    {
      hide IndexKey, EntryUser, EntryRole;
      var uuid := redis.GetGroupUuid(owner, name);
      var entries := redis.GetGroupMember(uuid);
      order := entries;
      shown := map[];
      for i := 0 to |entries|
        invariant shown == Shown(entries[..i])
      {
        shown := shown[EntryUser(entries[i]) := EntryRole(entries[i])];
        assert entries[..i + 1][..i] == entries[..i];
      }
      assert entries[..|entries|] == entries;
    }

    /** `group_choice`: the role told to a user who enters a group. */
    method GroupChoice(owner: string, name: string, username: string) returns (statue: string)
      requires IndexKey(GroupId(owner, name)) in redis.index
      ensures var h := redis.Snapshot().Managers(redis.index[IndexKey(GroupId(owner, name))]);
              statue == if username in h then h[username] else MEMBER
    {
      hide IndexKey;
      var uuid := redis.GetGroupUuid(owner, name);
      var managers := redis.GetGroupManagers(uuid);
      statue := MEMBER;
      var rest := managers.Keys;
      while rest != {}
        invariant rest <= managers.Keys
        invariant statue == if username in managers && username !in rest then managers[username] else MEMBER
        decreases rest
      {
        var user :| user in rest;
        rest := rest - {user};
        if user == username { statue := managers[user]; }
      }
    }
  }
}
