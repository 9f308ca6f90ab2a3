/**
  Who gets a group message, and what waits for a user until the next login: `group_chat` and the
  Response part of `adduser` in src/Server/net/connection.cc, with `setResKey`, `getHash` and
  `deleteHash` of src/Server/Redis/RedisClient.cc.
*/
module Delivery {
  import opened Names
  import opened GroupStore
  import opened Roster
  import opened GroupRoles
  import opened GroupRuns
  import Sessions

  /** A dispatch to the descriptor of a user. */
  datatype Packet = Packet(user: string, fd: nat)

  class Server {
    var users: map<string, nat>                         // descriptor of each user, 0 for none
    var responses: map<string, map<string, string>>    // the Response hash of each user
    var sent: seq<Packet>
    var shown: seq<(string, map<string, string>)>       // the Response packets sent at login

    function Waiting(u: string): map<string, string>
      reads this
    {
      if u in responses then responses[u] else map[]
    }

    constructor ()
    {
      users, responses, sent, shown := map[], map[], [], [];
    }

    method SetResKey(user: string, text: string, time: string)
      modifies this`responses
      ensures forall u :: Waiting(u) == AfterOne(old(Waiting(u)), Store(user, text, time), u)
    {
      responses := responses[user := (if user in responses then responses[user] else map[])[text := time]];
    }

    /** Delivers one message to every entry of the member set but the sender's. */
    method GroupChat(order: seq<string>, sender: string, text: string, time: string)
      modifies this`responses, this`sent
      ensures sent == old(sent) + Dispatches(order, sender, old(users))
      ensures forall u :: Waiting(u) == if Notified(order, sender, old(users), u) then old(Waiting(u))[text := time] else old(Waiting(u))
    {
      hide EntryUser, Notified;
      NoneNotified(sender, users);
      for i := 0 to |order|
        invariant sent == old(sent) + Dispatches(order[..i], sender, old(users))
        invariant forall u :: Waiting(u) ==
                    if Notified(order[..i], sender, old(users), u) then old(Waiting(u))[text := time] else old(Waiting(u))
      {
        var user := EntryUser(order[i]);
        assert order[..i + 1][..i] == order[..i];
        NotifiedStep(order[..i], order[i], sender, users);
        assert order[..i] + [order[i]] == order[..i + 1];
        if user == sender { continue; }
        var fd := if user in users then users[user] else 0;
        if fd == 0 {
          SetResKey(user, text, time);
          continue;
        }
        sent := sent + [Packet(user, fd)];
      }
      assert order[..|order|] == order;
    }

    /** The last part of a login: one packet with everything that waits, and nothing waits any more. */
    method ShowResponses(username: string)
      modifies this`responses, this`shown
      ensures shown == old(shown) + [(username, old(Waiting(username)))]
      ensures forall u :: Waiting(u) == AfterOne(old(Waiting(u)), Login(username), u)
    {
      var result := if username in responses then responses[username] else map[];
      shown := shown + [(username, result)];
      responses := responses - {username};
    }
  }

  ghost function FdIn(users: map<string, nat>, u: string): nat {
    if u in users then users[u] else 0
  }

  /** The dispatches of one group message, in member order. */
  ghost function Dispatches(order: seq<string>, sender: string, users: map<string, nat>): seq<Packet> {
    if |order| == 0 then []
    else
      var u := EntryUser(order[|order| - 1]);
      Dispatches(order[..|order| - 1], sender, users) +
      (if u != sender && FdIn(users, u) != 0 then [Packet(u, FdIn(users, u))] else [])
  }

  ghost predicate HasEntry(order: seq<string>, u: string) {
    exists i :: 0 <= i < |order| && EntryUser(order[i]) == u
  }

  /** A Response entry is stored for a user who is offline and has an entry. */
  ghost predicate Notified(order: seq<string>, sender: string, users: map<string, nat>, u: string) {
    u != sender && FdIn(users, u) == 0 && HasEntry(order, u)
  }

  lemma NoneNotified(sender: string, users: map<string, nat>)
    ensures forall u :: !Notified([], sender, users, u)
  {
  }

  lemma NotifiedStep(order: seq<string>, e: string, sender: string, users: map<string, nat>)
    ensures forall u :: Notified(order + [e], sender, users, u) <==>
              Notified(order, sender, users, u) || (u == EntryUser(e) && u != sender && FdIn(users, u) == 0)
  {
    hide EntryUser;
    var all := order + [e];
    assert all[|order|] == e;
    forall u | HasEntry(order, u) ensures HasEntry(all, u) {
      var i :| 0 <= i < |order| && EntryUser(order[i]) == u;
      assert all[i] == order[i];
    }
  }

  // ---------- exactly one delivery ----------

  /** SMEMBERS lists each element exactly once. */
  ghost predicate Once(order: seq<string>, s: set<string>) {
    && Enumerates(order, s)
    && forall i, j | 0 <= i < j < |order| :: order[i] != order[j]
  }

  ghost function DispatchCount(packets: seq<Packet>, u: string): nat {
    if |packets| == 0 then 0
    else DispatchCount(packets[..|packets| - 1], u) + (if packets[|packets| - 1].user == u then 1 else 0)
  }

  lemma {:induction false} CountConcat(x: seq<Packet>, p: seq<Packet>, u: string)
    requires |p| <= 1
    ensures DispatchCount(x + p, u) == DispatchCount(x, u) + (if |p| == 1 && p[0].user == u then 1 else 0)
  {
    if |p| == 0 {
      assert x + p == x;
    } else {
      assert (x + p)[..|x|] == x;
    }
  }

  lemma {:induction false} CountIsMembership(order: seq<string>, sender: string, users: map<string, nat>, u: string)
    requires forall i, j | 0 <= i < j < |order| :: EntryUser(order[i]) != EntryUser(order[j])
    ensures DispatchCount(Dispatches(order, sender, users), u) ==
            if u != sender && FdIn(users, u) != 0 && HasEntry(order, u) then 1 else 0
    decreases |order|
  {
    hide EntryUser;
    if |order| > 0 {
      var n, before := |order| - 1, order[..|order| - 1];
      var v := EntryUser(order[n]);
      CountIsMembership(before, sender, users, u);
      CountConcat(Dispatches(before, sender, users),
                  if v != sender && FdIn(users, v) != 0 then [Packet(v, FdIn(users, v))] else [], u);
      assert HasEntry(before, u) ==> v != u;
      assert HasEntry(order, u) <==> HasEntry(before, u) || v == u by {
        if i :| 0 <= i < |order| && EntryUser(order[i]) == u { assert i < n ==> before[i] == order[i]; }
        if i :| 0 <= i < |before| && EntryUser(before[i]) == u { assert order[i] == before[i]; }
      }
    }
  }

  /** Entries of one roster belong to different users. */
  lemma EntryUsersDiffer(db: Db, gs: Groups, id: GroupId, order: seq<string>)
    requires RolesAgree(db, gs) && id in gs && Once(order, db.Members(gs[id].uuid))
    ensures forall i, j | 0 <= i < j < |order| :: EntryUser(order[i]) != EntryUser(order[j])
    ensures forall u :: HasEntry(order, u) <==> u in gs[id].roles
  {
    hide MemberEntry, EntryUser, EntryRole, IndexKey, Privileged, NameOk;
    GroupOf(db, gs, id);
    var roles := gs[id].roles;
    forall i | 0 <= i < |order|
      ensures EntryUser(order[i]) in roles && order[i] == MemberEntry(EntryUser(order[i]), roles[EntryUser(order[i])])
    {
      var v :| v in roles && order[i] == MemberEntry(v, roles[v]);
      RolesHaveNoColon(roles[v]);
      EntryRoundTrip(v, roles[v]);
    }
    forall u | u in roles ensures HasEntry(order, u) {
      RolesHaveNoColon(roles[u]);
      EntryRoundTrip(u, roles[u]);
      assert MemberEntry(u, roles[u]) in db.Members(gs[id].uuid);
      var i :| 0 <= i < |order| && order[i] == MemberEntry(u, roles[u]);
      assert EntryUser(order[i]) == u;
    }
  }

  /** For every user: one dispatch if an online member other than the sender, one stored entry if an
      offline member other than the sender, and otherwise nothing. */
  lemma EachMemberOnce(db: Db, gs: Groups, id: GroupId, order: seq<string>, sender: string, users: map<string, nat>, u: string)
    requires RolesAgree(db, gs) && id in gs && Once(order, db.Members(gs[id].uuid))
    ensures var other := u in gs[id].roles && u != sender;
            && DispatchCount(Dispatches(order, sender, users), u) == (if other && FdIn(users, u) != 0 then 1 else 0)
            && (Notified(order, sender, users, u) <==> other && FdIn(users, u) == 0)
  {
    hide RolesAgree, EntryUser, Dispatches;
    EntryUsersDiffer(db, gs, id, order);
    CountIsMembership(order, sender, users, u);
  }

  /** Every packet goes to the descriptor under which its user is registered. */
  lemma {:induction false} PacketsGoToUsers(order: seq<string>, sender: string, users: map<string, nat>)
    ensures forall p | p in Dispatches(order, sender, users) :: p.user in users && p.fd == users[p.user] && p.fd != 0
    decreases |order|
  {
    hide EntryUser;
    if |order| > 0 { PacketsGoToUsers(order[..|order| - 1], sender, users); }
  }

  /** So in every reachable state of the registries, a group message reaches connections that logged
      in as its members, and no others. */
  lemma PacketsReachMembers(steps: seq<Sessions.Step>, order: seq<string>, sender: string, p: Packet)
    requires Sessions.Run(Sessions.START, steps)
    requires p in Dispatches(order, sender, Sessions.End(Sessions.START, steps).users)
    ensures p.user != sender && HasEntry(order, p.user)
    ensures var n := Sessions.End(Sessions.START, steps);
            var c := Sessions.Target(n, p.fd);
            c.Some? ==> c.value in n.logins && n.logins[c.value] == p.user
  {
    PacketsGoToUsers(order, sender, Sessions.End(Sessions.START, steps).users);
    PacketsHaveEntries(order, sender, Sessions.End(Sessions.START, steps).users);
    hide Dispatches, HasEntry, Sessions.Run, Sessions.End, Sessions.Target;
    Sessions.DispatchReachesUser(steps, p.user);
  }

  lemma {:induction false} PacketsHaveEntries(order: seq<string>, sender: string, users: map<string, nat>)
    ensures forall p | p in Dispatches(order, sender, users) :: p.user != sender && HasEntry(order, p.user)
    decreases |order|
  {
    hide EntryUser;
    if |order| > 0 {
      var n, before := |order| - 1, order[..|order| - 1];
      PacketsHaveEntries(before, sender, users);
      assert HasEntry(order, EntryUser(order[n]));
      forall u | HasEntry(before, u) ensures HasEntry(order, u) {
        var i :| 0 <= i < |before| && EntryUser(before[i]) == u;
        assert order[i] == before[i];
      }
    }
  }

  // ---------- what a login shows ----------

  /** What happens to the Response hashes: a text is stored for a user, or a user logs in. */
  datatype Event = Store(user: string, text: string, time: string) | Login(user: string)

  /** The hash of a user after one event. */
  function AfterOne(before: map<string, string>, e: Event, u: string): map<string, string> {
    match e
    case Store(v, text, time) => if v == u then before[text := time] else before
    case Login(v) => if v == u then map[] else before
  }

  /** The hash of a user after a sequence of events, as the two methods leave it. */
  ghost function After(events: seq<Event>, u: string): map<string, string> {
    if |events| == 0 then map[] else AfterOne(After(events[..|events| - 1], u), events[|events| - 1], u)
  }

  /** The text was stored for u at i, with no login of u since. */
  ghost predicate StillWaits(events: seq<Event>, u: string, text: string, i: nat) {
    && i < |events| && events[i].Store? && events[i].user == u && events[i].text == text
    && forall j | i < j < |events| :: events[j] != Login(u)
  }

  /** A login shows exactly the texts stored since the user's last login, each with the time it was
      last stored; so each is shown once unless it is stored again. */
  lemma {:induction false} LoginShowsWhatWaits(events: seq<Event>, u: string, text: string)
    ensures text in After(events, u) <==> exists i: nat :: StillWaits(events, u, text, i)
    ensures forall i: nat | StillWaits(events, u, text, i) &&
              (forall j: nat | i < j :: !StillWaits(events, u, text, j)) :: After(events, u)[text] == events[i].time
    decreases |events|
  {
    if |events| > 0 {
      var n, before := |events| - 1, events[..|events| - 1];
      var e := events[n];
      LoginShowsWhatWaits(before, u, text);
      forall i: nat | i < n
        ensures StillWaits(events, u, text, i) <==> StillWaits(before, u, text, i) && e != Login(u)
      {
        if StillWaits(before, u, text, i) && e != Login(u) {
          forall j | i < j < |events| ensures events[j] != Login(u) { assert j < n ==> events[j] == before[j]; }
        }
        if StillWaits(events, u, text, i) {
          forall j | i < j < |before| ensures before[j] != Login(u) { assert before[j] == events[j]; }
        }
      }
      assert StillWaits(events, u, text, n) <==> e.Store? && e.user == u && e.text == text;
      assert forall i: nat | i > n :: !StillWaits(events, u, text, i);
      if i: nat :| StillWaits(before, u, text, i) { assert i < n; }
    }
  }
}
