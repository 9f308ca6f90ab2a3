/**
  Chat history: `setChatList`, `getChatList` and `getChatOnlineList` of
  src/Server/Redis/RedisClient.cc, and the key under which `Send_msg` stores a conversation and
  `send_offline_msg` and `send_online_msg` read it (src/Server/net/connection.cc). A push and the
  trim after it are two commands; commands of other workers may come in between.
*/
module ChatLog {
  import opened Names

  // ---------- the key of a conversation ----------

  /** `a > b` on strings. */
  predicate Greater(a: string, b: string) {
    |a| > 0 && (|b| == 0 || a[0] > b[0] || (a[0] == b[0] && Greater(a[1..], b[1..])))
  }

  function PairKey(a: string, b: string): string {
    if Greater(a, b) then a + ":" + b else b + ":" + a
  }

  lemma {:induction false} Trichotomy(a: string, b: string)
    ensures Greater(a, b) ==> !Greater(b, a)
    ensures !Greater(a, b) && !Greater(b, a) ==> a == b
  {
    if |a| > 0 && |b| > 0 && a[0] == b[0] {
      Trichotomy(a[1..], b[1..]);
      assert a == [a[0]] + a[1..] && b == [b[0]] + b[1..];
    }
  }

  /** The greater name, a colon, and the other name. */
  lemma PairKeyText(a: string, b: string)
    ensures var k := PairKey(a, b);
            (k == a + [':'] + b && !Greater(b, a)) || (k == b + [':'] + a && !Greater(a, b))
  {
    Trichotomy(a, b);
    hide Greater;
  }

  /** The first place where the names differ has the greater character in a, or b ends first. */
  predicate GreaterAt(a: string, b: string, i: nat) {
    i < |a| && i <= |b| && a[..i] == b[..i] && (i == |b| || a[i] > b[i])
  }

  lemma {:induction false} GreaterSomewhere(a: string, b: string) returns (i: nat)
    requires Greater(a, b)
    ensures GreaterAt(a, b, i)
    decreases |a|
  {
    if |b| == 0 || a[0] > b[0] {
      i := 0;
    } else {
      var k := GreaterSomewhere(a[1..], b[1..]);
      i := k + 1;
      assert a[..i] == [a[0]] + a[1..][..k] && b[..i] == [b[0]] + b[1..][..k];
    }
  }

  lemma {:induction false} GreaterThere(a: string, b: string, i: nat)
    requires GreaterAt(a, b, i)
    ensures Greater(a, b)
    decreases i
  {
    if i > 0 {
      assert a[..i][0] == b[..i][0];
      assert a[1..][..i - 1] == a[..i][1..] && b[1..][..i - 1] == b[..i][1..];
      GreaterThere(a[1..], b[1..], i - 1);
    }
  }

  /** `>` on names is the order of the first place in which they differ. */
  lemma GreaterIff(a: string, b: string)
    ensures Greater(a, b) <==> exists i: nat :: GreaterAt(a, b, i)
  {
    hide Greater, GreaterAt;
    if Greater(a, b) { var i := GreaterSomewhere(a, b); }
    forall i: nat | GreaterAt(a, b, i) ensures Greater(a, b) { GreaterThere(a, b, i); }
  }

  /** Both directions of a conversation use one key. */
  lemma PairKeySymmetric(a: string, b: string)
    ensures PairKey(a, b) == PairKey(b, a)
  {
    Trichotomy(a, b);
  }

  /** Different pairs of colon-free names never share a key. */
  lemma PairKeyInjective(a: string, b: string, c: string, d: string)
    requires NoChar(a, ':') && NoChar(b, ':') && NoChar(c, ':') && NoChar(d, ':')
    ensures PairKey(a, b) == PairKey(c, d) <==> (a == c && b == d) || (a == d && b == c)
  {
    var x, y := if Greater(a, b) then a else b, if Greater(a, b) then b else a;
    var z, w := if Greater(c, d) then c else d, if Greater(c, d) then d else c;
    assert PairKey(a, b) == x + [':'] + y && PairKey(c, d) == z + [':'] + w;
    hide Greater;
    if x + [':'] + y == z + [':'] + w { FirstCutUnique(x, y, z, w, ':'); }
    PairKeySymmetric(a, b);
  }

  // ---------- the stored lists ----------

  const KEPT := 100
  const RECENT := 10

  /** LRANGE and LTRIM with a range from -n to -1. */
  function Last<T>(s: seq<T>, n: nat): seq<T> {
    if |s| <= n then s else s[|s| - n..]
  }

  /** A command of some handler: the push of a message, or the trim that follows a push. */
  datatype Command = Push(from: string, to: string, text: string) | Trim(key: string)

  datatype Store = Store(lists: map<string, seq<string>>) {
    function List(key: string): seq<string> {
      if key in lists then lists[key] else []
    }
  }

  function Entry(from: string, text: string): string {
    from + ":" + text
  }

  function Do(s: Store, c: Command): Store {
    match c
    case Push(from, to, text) =>
      var key := PairKey(from, to);
      Store(s.lists[key := s.List(key) + [Entry(from, text)]])
    case Trim(key) => Store(s.lists[key := Last(s.List(key), KEPT)])
  }

  ghost function Run(cs: seq<Command>): Store {
    if |cs| == 0 then Store(map[]) else Do(Run(cs[..|cs| - 1]), cs[|cs| - 1])
  }

  /** Everything ever pushed under a key, and the handlers between their push and their trim. */
  ghost function Pushed(cs: seq<Command>, key: string): seq<string> {
    if |cs| == 0 then []
    else
      var before, c := Pushed(cs[..|cs| - 1], key), cs[|cs| - 1];
      if c.Push? && PairKey(c.from, c.to) == key then before + [Entry(c.from, c.text)] else before
  }

  ghost function Pending(cs: seq<Command>, key: string): int {
    if |cs| == 0 then 0
    else
      var before, c := Pending(cs[..|cs| - 1], key), cs[|cs| - 1];
      if c.Push? && PairKey(c.from, c.to) == key then before + 1
      else if c.Trim? && c.key == key then before - 1
      else before
  }

  /** Each push under the key counts one up, each trim of it one down. */
  lemma {:induction false} PendingConcat(x: seq<Command>, y: seq<Command>, key: string)
    ensures Pending(x + y, key) == Pending(x, key) + Pending(y, key)
    decreases |y|
  {
    hide PairKey;
    if |y| == 0 {
      assert x + y == x;
    } else {
      assert (x + y)[..|x + y| - 1] == x + y[..|y| - 1];
      PendingConcat(x, y[..|y| - 1], key);
    }
  }

  lemma PendingOne(c: Command, key: string)
    ensures Pending([c], key) ==
            if c.Push? && PairKey(c.from, c.to) == key then 1 else if c.Trim? && c.key == key then -1 else 0
  {
    hide PairKey;
    assert [c][..0] == [];
  }

  /** Every trim follows a push of its own handler. */
  ghost predicate TrimsFollow(cs: seq<Command>) {
    |cs| > 0 ==>
      var before, c := cs[..|cs| - 1], cs[|cs| - 1];
      TrimsFollow(before) && (c.Trim? ==> Pending(before, c.key) > 0)
  }

  /** A suffix of everything pushed, long enough to hold the last hundred, and longer only by the
      pushes whose trim is still to come. */
  ghost predicate Bounded(l: seq<string>, all: seq<string>, pending: int) {
    && |l| <= |all| && l == all[|all| - |l|..]
    && (|l| >= KEPT || l == all)
    && pending >= 0 && |l| <= KEPT + pending
  }

  lemma PushBounded(l: seq<string>, all: seq<string>, pending: int, e: string)
    requires Bounded(l, all, pending)
    ensures Bounded(l + [e], all + [e], pending + 1)
  {
    assert (all + [e])[|all| - |l|..] == all[|all| - |l|..] + [e];
  }

  lemma TrimBounded(l: seq<string>, all: seq<string>, pending: int)
    requires Bounded(l, all, pending) && pending > 0
    ensures Bounded(Last(l, KEPT), all, pending - 1)
  {
  }

  lemma ListAfter(s: Store, c: Command, key: string)
    ensures Do(s, c).List(key) ==
            if c.Push? && PairKey(c.from, c.to) == key then s.List(key) + [Entry(c.from, c.text)]
            else if c.Trim? && c.key == key then Last(s.List(key), KEPT)
            else s.List(key)
  {
    hide PairKey, Entry, Last;
  }

  lemma {:induction false} StoredIsSuffix(cs: seq<Command>, key: string)
    requires TrimsFollow(cs)
    ensures Bounded(Run(cs).List(key), Pushed(cs, key), Pending(cs, key))
    decreases |cs|
  {
    if |cs| > 0 {
      hide PairKey, Entry, Bounded, Last, Do, Store.List;
      var before, c := cs[..|cs| - 1], cs[|cs| - 1];
      StoredIsSuffix(before, key);
      var l, all, pending := Run(before).List(key), Pushed(before, key), Pending(before, key);
      ListAfter(Run(before), c, key);
      if c.Push? && PairKey(c.from, c.to) == key {
        PushBounded(l, all, pending, Entry(c.from, c.text));
      } else if c.Trim? && c.key == key {
        TrimBounded(l, all, pending);
      }
    } else {
      assert Bounded([], [], 0);
    }
  }

  /** Reading the last n, for n up to the limit, reads the last n ever pushed. */
  lemma ReadsLast(cs: seq<Command>, key: string, n: nat)
    requires TrimsFollow(cs) && n <= KEPT
    ensures Last(Run(cs).List(key), n) == Last(Pushed(cs, key), n)
  {
    hide Run, Pushed, Pending, TrimsFollow, Bounded, Last;
    StoredIsSuffix(cs, key);
    SameLast(Run(cs).List(key), Pushed(cs, key), Pending(cs, key), n);
  }

  lemma SameLast(l: seq<string>, all: seq<string>, pending: int, n: nat)
    requires Bounded(l, all, pending) && n <= KEPT
    ensures Last(l, n) == Last(all, n)
  {
  }

  /** The messages of one conversation, in either direction, in the order they were pushed. */
  ghost function Conversation(cs: seq<Command>, a: string, b: string): seq<string> {
    if |cs| == 0 then []
    else
      var before, c := Conversation(cs[..|cs| - 1], a, b), cs[|cs| - 1];
      if c.Push? && ((c.from == a && c.to == b) || (c.from == b && c.to == a))
      then before + [Entry(c.from, c.text)] else before
  }

  /** A conversation is what was said in it before, and then what was said after. */
  lemma {:induction false} ConversationConcat(x: seq<Command>, y: seq<Command>, a: string, b: string)
    ensures Conversation(x + y, a, b) == Conversation(x, a, b) + Conversation(y, a, b)
    decreases |y|
  {
    hide Entry;
    if |y| == 0 {
      assert x + y == x;
    } else {
      assert (x + y)[..|x + y| - 1] == x + y[..|y| - 1];
      ConversationConcat(x, y[..|y| - 1], a, b);
    }
  }

  /** Each message between the two, in either direction, is in it once, behind its sender's name. */
  lemma ConversationOne(c: Command, a: string, b: string)
    ensures Conversation([c], a, b) ==
            if c.Push? && ((c.from == a && c.to == b) || (c.from == b && c.to == a)) then [c.from + ":" + c.text] else []
  {
    assert [c][..0] == [];
  }

  ghost predicate PlainNames(cs: seq<Command>) {
    forall i | 0 <= i < |cs| && cs[i].Push? :: NoChar(cs[i].from, ':') && NoChar(cs[i].to, ':')
  }

  lemma {:induction false} KeySelectsConversation(cs: seq<Command>, a: string, b: string)
    requires PlainNames(cs) && NoChar(a, ':') && NoChar(b, ':')
    ensures Pushed(cs, PairKey(a, b)) == Conversation(cs, a, b)
    decreases |cs|
  {
    if |cs| > 0 {
      hide PairKey, Entry, NoChar;
      KeySelectsConversation(cs[..|cs| - 1], a, b);
      var c := cs[|cs| - 1];
      if c.Push? { PairKeyInjective(c.from, c.to, a, b); }
    }
  }

  /** The last n of a list, or all of a shorter one. */
  ghost predicate IsLast(h: seq<string>, all: seq<string>, n: nat) {
    |h| == (if |all| < n then |all| else n) && h == all[|all| - |h|..]
  }

  lemma LastIsLast(all: seq<string>, n: nat)
    ensures IsLast(Last(all, n), all, n)
  {
  }

  /** Over any interleaving of pushes and trims by any users: whichever of the two asks, the history
      of a pair is the last hundred of all its own messages and of no others, in order, and the
      online history the last ten. */
  lemma HistoryReadsBack(cs: seq<Command>, a: string, b: string)
    requires TrimsFollow(cs) && PlainNames(cs) && NoChar(a, ':') && NoChar(b, ':')
    ensures History(Run(cs), a, b) == History(Run(cs), b, a) && IsLast(History(Run(cs), a, b), Conversation(cs, a, b), 100)
    ensures OnlineHistory(Run(cs), a, b) == OnlineHistory(Run(cs), b, a)
    ensures IsLast(OnlineHistory(Run(cs), a, b), Conversation(cs, a, b), 10)
  {
    hide Run, Pushed, Conversation, PairKey, Last, TrimsFollow, IsLast;
    PairKeySymmetric(a, b);
    KeySelectsConversation(cs, a, b);
    ReadsLast(cs, PairKey(a, b), KEPT);
    ReadsLast(cs, PairKey(a, b), RECENT);
    LastIsLast(Conversation(cs, a, b), KEPT);
    LastIsLast(Conversation(cs, a, b), RECENT);
  }

  /** What `send_offline_msg` and `send_online_msg` read. */
  function History(s: Store, name: string, username: string): seq<string> {
    Last(s.List(PairKey(name, username)), KEPT)
  }

  function OnlineHistory(s: Store, name: string, username: string): seq<string> {
    Last(s.List(PairKey(name, username)), RECENT)
  }

  // ---------- the commands on the store ----------

  class RedisClient {
    var lists: map<string, seq<string>>

    ghost function Snapshot(): Store
      reads this
    {
      Store(lists)
    }

    constructor ()
      ensures Snapshot() == Run([])
    {
      lists := map[];
    }

    method RPush(key: string, field: string)
      modifies this
      ensures lists == old(lists)[key := old(Snapshot()).List(key) + [field]]
    {
      lists := lists[key := (if key in lists then lists[key] else []) + [field]];
    }

    method LTrim(key: string)
      modifies this
      ensures Snapshot() == Do(old(Snapshot()), Trim(key))
    {
      lists := lists[key := Last(if key in lists then lists[key] else [], KEPT)];
    }

    method LRange(key: string, n: nat) returns (values: seq<string>)
      ensures values == Last(Snapshot().List(key), n)
    {
      values := Last(if key in lists then lists[key] else [], n);
    }

    /** The storing part of `Send_msg`, undisturbed: the push, then the trim. */
    method SendMsg(from: string, to: string, message: string)
      modifies this
      ensures Snapshot() == Do(Do(old(Snapshot()), Push(from, to, message)), Trim(PairKey(from, to)))
    {
      var msg := from + ":" + message;
      var user := if Greater(from, to) then from + ":" + to else to + ":" + from;
      RPush(user, msg);
      LTrim(user);
    }

    method SendOfflineMsg(name: string, username: string) returns (offLines: seq<string>)
      ensures offLines == History(Snapshot(), name, username)
    {
      var user := if Greater(name, username) then name + ":" + username else username + ":" + name;
      offLines := LRange(user, 100);
    }

    method SendOnlineMsg(name: string, username: string) returns (offLines: seq<string>)
      ensures offLines == OnlineHistory(Snapshot(), name, username)
    {
      var user := if Greater(name, username) then name + ":" + username else username + ":" + name;
      offLines := LRange(user, 10);
    }
  }
}
