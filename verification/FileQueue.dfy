/**
  Handing over files: the Redis list of stored paths of one sender and one receiver
  (`setFile`, `getFile`, `deleteFile` of src/Server/Redis/RedisClient.cc), and its use by
  `file_creat` and `send_file` (src/Server/FTP_server/connect/Dataconnect.cc), which act on the
  names that `cmd_execute` reads from a command line.
*/
module FileQueue {
  import opened Prelude
  import opened Names
  import opened Commands

  function Key(sender: string, receiver: string): string {
    "file:" + sender + ":" + receiver
  }

  /** Different pairs with colon-free senders have different keys. */
  lemma KeyInjective(a: string, b: string, c: string, d: string)
    requires NoChar(a, ':') && NoChar(c, ':')
    ensures Key(a, b) == Key(c, d) <==> a == c && b == d
  {
    assert Key(a, b) == "file:" + (a + [':'] + b) && Key(c, d) == "file:" + (c + [':'] + d);
    if Key(a, b) == Key(c, d) {
      assert Key(a, b)[5..] == a + [':'] + b && Key(c, d)[5..] == c + [':'] + d;
      FirstCutUnique(a, b, c, d, ':');
    }
  }

  // ---------- the commands ----------

  /** LREM with count 1: the first element equal to `field` goes. */
  function Removed(l: seq<string>, field: string): (r: seq<string>) {
    if |l| == 0 then [] else if l[0] == field then l[1..] else [l[0]] + Removed(l[1..], field)
  }

  function ListAt(lists: map<string, seq<string>>, key: string): seq<string> {
    if key in lists then lists[key] else []
  }

  /** The path goes, however often it is listed, at its first place only. */
  lemma {:induction false} RemovedIsFirst(before: seq<string>, field: string, after: seq<string>)
    requires field !in before
    ensures Removed(before, field) == before
    ensures Removed(before + [field] + after, field) == before + after
    decreases |before|
  {
    var l := before + [field] + after;
    if |before| > 0 {
      assert before == [before[0]] + before[1..];
      RemovedIsFirst(before[1..], field, after);
      assert l[1..] == before[1..] + [field] + after;
      assert [before[0]] + (before[1..] + after) == before + after;
    } else {
      assert l[0] == field && l[1..] == after && before + after == after;
    }
  }

  // ---------- any run of commands ----------

  /** STOR lists the path of the new file; RETR takes the head of the list, and once it is sent takes
      its path off again. Other commands may come between the two, also of the same pair. */
  datatype Event = Stor(line: string, path: string) | Retr(conn: nat, line: string) | Done(conn: nat)

  datatype Download = Download(key: string, path: string)

  datatype State = State(lists: map<string, seq<string>>, active: map<nat, Download>, completed: map<string, seq<string>>)

  const START := State(map[], map[], map[])

  function UploadKey(line: string): string {
    Key(Parse(line).from, Parse(line).to)
  }

  function DownloadKey(line: string): string {
    Key(Parse(line).to, Parse(line).from)
  }

  function Completed(s: State, key: string): seq<string> {
    if key in s.completed then s.completed[key] else []
  }

  /** A connection does one download at a time, and reads the first element of a list that has one. */
  predicate Guard(s: State, e: Event) {
    match e
    case Stor(line, _) => Parse(line).kind == "STOR"
    case Retr(conn, line) => Parse(line).kind == "RETR" && ListAt(s.lists, DownloadKey(line)) != [] && conn !in s.active
    case Done(conn) => conn in s.active
  }

  function Next(s: State, e: Event): State
    requires Guard(s, e)
  {
    match e
    case Stor(line, path) => s.(lists := s.lists[UploadKey(line) := ListAt(s.lists, UploadKey(line)) + [path]])
    case Retr(conn, line) => s.(active := s.active[conn := Download(DownloadKey(line), ListAt(s.lists, DownloadKey(line))[0])])
    case Done(conn) =>
      var d := s.active[conn];
      State(s.lists[d.key := Removed(ListAt(s.lists, d.key), d.path)],
            s.active - {conn},
            s.completed[d.key := Completed(s, d.key) + [d.path]])
  }

  ghost predicate Runs(es: seq<Event>)
    decreases |es|, 0
  {
    |es| > 0 ==> Runs(es[..|es| - 1]) && Guard(After(es[..|es| - 1]), es[|es| - 1])
  }

  ghost function After(es: seq<Event>): State
    requires Runs(es)
    decreases |es|, 1
  {
    if |es| == 0 then START else Next(After(es[..|es| - 1]), es[|es| - 1])
  }

  /** The paths uploaded under a key, in order. */
  ghost function Uploaded(es: seq<Event>, key: string): seq<string> {
    if |es| == 0 then []
    else
      var before, e := Uploaded(es[..|es| - 1], key), es[|es| - 1];
      if e.Stor? && UploadKey(e.line) == key then before + [e.path] else before
  }

  /** What was sent, followed by what is listed, is what was uploaded: each file once and in order. */
  ghost predicate HandedOver(es: seq<Event>, key: string)
    requires Runs(es)
  {
    Uploaded(es, key) == Completed(After(es), key) + ListAt(After(es).lists, key)
  }

  // ---------- when it holds ----------

  /** Every download that is done finds the path it sent at the head of the list. */
  ghost predicate HeadsOnly(es: seq<Event>, key: string)
    requires Runs(es)
    decreases |es|
  {
    |es| > 0 ==>
      var before, e := es[..|es| - 1], es[|es| - 1];
      && HeadsOnly(before, key)
      && (e.Done? && After(before).active[e.conn].key == key ==> AtHead(After(before), e.conn))
  }

  predicate AtHead(s: State, conn: nat)
    requires conn in s.active
  {
    var l := ListAt(s.lists, s.active[conn].key);
    l != [] && l[0] == s.active[conn].path
  }

  /** There is a file too many, or one in the wrong place. */
  ghost predicate Lost(all: seq<string>, completed: seq<string>, l: seq<string>) {
    || |completed| + |l| > |all|
    || exists i :: 0 <= i < |completed| && i < |all| && completed[i] != all[i]
  }

  lemma LostForGood(all: seq<string>, completed: seq<string>, l: seq<string>, path: string)
    requires Lost(all, completed, l)
    ensures completed + l != all
    ensures Lost(all + [path], completed, l + [path])
    ensures Lost(all, completed + [path], Removed(l, path))
  {
    RemovedLength(l, path);
    if i :| 0 <= i < |completed| && i < |all| && completed[i] != all[i] {
      assert (completed + l)[i] == completed[i];
      assert (all + [path])[i] != completed[i];
      assert (completed + [path])[i] != all[i];
    }
  }

  lemma {:induction false} RemovedLength(l: seq<string>, path: string)
    ensures |Removed(l, path)| == if path in l then |l| - 1 else |l|
  {
    if |l| > 0 && l[0] != path {
      RemovedLength(l[1..], path);
      assert l == [l[0]] + l[1..];
    }
  }

  /** Taking off another path than the head's loses a file. */
  lemma OneStep(all: seq<string>, completed: seq<string>, l: seq<string>, path: string)
    requires all == completed + l
    ensures all + [path] == completed + (l + [path])
    ensures l != [] && l[0] == path ==> all == completed + [path] + Removed(l, path)
    ensures l == [] || l[0] != path ==> Lost(all, completed + [path], Removed(l, path))
  {
    RemovedLength(l, path);
    if l != [] && l[0] == path {
      assert l == [path] + l[1..];
    } else if path in l {
      assert (completed + [path])[|completed|] != all[|completed|];
    }
  }

  lemma {:induction false} HandedOrLost(es: seq<Event>, key: string)
    requires Runs(es)
    ensures if HeadsOnly(es, key) then HandedOver(es, key)
            else Lost(Uploaded(es, key), Completed(After(es), key), ListAt(After(es).lists, key))
    decreases |es|
  {
    hide Lost, Key, Parse;
    if |es| > 0 {
      var before, e := es[..|es| - 1], es[|es| - 1];
      HandedOrLost(before, key);
      var all, completed, l := Uploaded(before, key), Completed(After(before), key), ListAt(After(before).lists, key);
      var path := if e.Stor? then e.path else if e.Done? then After(before).active[e.conn].path else "";
      if HeadsOnly(before, key) { OneStep(all, completed, l, path); } else { LostForGood(all, completed, l, path); }
    }
  }

  /** In every run, with repeated paths, uploads at any time and downloads of one pair that overlap,
      under every key: each upload is handed over once and in order if and only if every download
      that is done finds the path it sent at the head of the list. */
  lemma HandedOverIff(es: seq<Event>, key: string)
    requires Runs(es)
    ensures HandedOver(es, key) <==> HeadsOnly(es, key)
  {
    HandedOrLost(es, key);
    hide Runs, After, Uploaded, HeadsOnly, Lost, Removed;
    var all, completed, l := Uploaded(es, key), Completed(After(es), key), ListAt(After(es).lists, key);
    if Lost(all, completed, l) { LostForGood(all, completed, l, ""); }
  }

  // ---------- one download at a time ----------

  /** No download under the key begins while another one is going on. */
  ghost predicate Sequential(es: seq<Event>, key: string)
    requires Runs(es)
    decreases |es|
  {
    |es| > 0 ==>
      var before, e := es[..|es| - 1], es[|es| - 1];
      && Sequential(before, key)
      && (e.Retr? && DownloadKey(e.line) == key ==> forall c | c in After(before).active :: After(before).active[c].key != key)
  }

  ghost predicate OneAtHead(s: State, key: string) {
    && (forall c | c in s.active && s.active[c].key == key :: AtHead(s, c))
    && (forall c, d | c in s.active && d in s.active && s.active[c].key == s.active[d].key == key :: c == d)
  }

  lemma StorKeepsHead(s: State, e: Event, key: string)
    requires OneAtHead(s, key) && e.Stor? && Guard(s, e)
    ensures OneAtHead(Next(s, e), key)
  {
    hide Key, Parse;
  }

  lemma RetrKeepsHead(s: State, e: Event, key: string)
    requires OneAtHead(s, key) && e.Retr? && Guard(s, e)
    requires DownloadKey(e.line) == key ==> forall c | c in s.active :: s.active[c].key != key
    ensures OneAtHead(Next(s, e), key)
  {
    hide Key, Parse;
  }

  lemma DoneKeepsHead(s: State, e: Event, key: string)
    requires OneAtHead(s, key) && e.Done? && Guard(s, e)
    ensures OneAtHead(Next(s, e), key) && (s.active[e.conn].key == key ==> AtHead(s, e.conn))
  {
    hide Key, Parse, Removed;
  }

  lemma {:induction false} SequentialHeads(es: seq<Event>, key: string)
    requires Runs(es) && Sequential(es, key)
    ensures HeadsOnly(es, key) && OneAtHead(After(es), key)
    decreases |es|
  {
    if |es| > 0 {
      hide Key, Parse, OneAtHead, Next, Guard;
      var before, e := es[..|es| - 1], es[|es| - 1];
      SequentialHeads(before, key);
      match e
      case Stor(_, _) => StorKeepsHead(After(before), e, key);
      case Retr(_, _) => RetrKeepsHead(After(before), e, key);
      case Done(_) => DoneKeepsHead(After(before), e, key);
    } else {
      assert OneAtHead(START, key);
    }
  }

  /** Where the downloads of a pair do not overlap, every upload is handed over once and in order,
      whatever names were sent. */
  lemma UploadsAreHandedOver(es: seq<Event>, key: string)
    requires Runs(es) && Sequential(es, key)
    ensures HandedOver(es, key)
  {
    SequentialHeads(es, key);
    HandedOverIff(es, key);
  }

  /** Two downloads of one pair that overlap both send the head. When both are done, the law still
      holds if and only if the next path listed by then is the same; otherwise one file was sent
      again in place of another. */
  lemma OverlapIsHarmlessIff(es: seq<Event>, c: nat, d: nat)
    requires Runs(es) && c != d && c in After(es).active && d in After(es).active
    requires After(es).active[c] == After(es).active[d] && AtHead(After(es), c) && HandedOver(es, After(es).active[c].key)
    ensures Runs(es + [Done(c)]) && Runs(es + [Done(c)] + [Done(d)])
    ensures var key := After(es).active[c].key;
            var l := ListAt(After(es).lists, key);
            HandedOver(es + [Done(c)] + [Done(d)], key) <==> |l| >= 2 && l[1] == l[0]
  {
    var s := After(es);
    var key := s.active[c].key;
    var l := ListAt(s.lists, key);
    var one := es + [Done(c)];
    var two := one + [Done(d)];
    assert one[..|es|] == es && two[..|one|] == one;
    assert After(one) == Next(s, Done(c));
    HandedOverIff(es, key);
    HandedOverIff(two, key);
    assert ListAt(After(one).lists, key) == l[1..];
    assert HeadsOnly(one, key);
  }

  // ---------- pairs ----------

  ghost predicate PlainSenders(es: seq<Event>) {
    forall i | 0 <= i < |es| && es[i].Stor? :: NoChar(Parse(es[i].line).from, ':')
  }

  /** The paths one user uploaded for another. */
  ghost function UploadedBy(es: seq<Event>, sender: string, receiver: string): seq<string> {
    if |es| == 0 then []
    else
      var before, e := UploadedBy(es[..|es| - 1], sender, receiver), es[|es| - 1];
      if e.Stor? && Parse(e.line).from == sender && Parse(e.line).to == receiver then before + [e.path] else before
  }

  /** The uploads of a pair are those before and then those after. */
  lemma {:induction false} UploadedByConcat(x: seq<Event>, y: seq<Event>, sender: string, receiver: string)
    ensures UploadedBy(x + y, sender, receiver) == UploadedBy(x, sender, receiver) + UploadedBy(y, sender, receiver)
    decreases |y|
  {
    hide Parse;
    if |y| == 0 {
      assert x + y == x;
    } else {
      assert (x + y)[..|x + y| - 1] == x + y[..|y| - 1];
      UploadedByConcat(x, y[..|y| - 1], sender, receiver);
    }
  }

  /** Each STOR line that names the pair uploads its path, and nothing else does. */
  lemma UploadedByOne(e: Event, sender: string, receiver: string)
    ensures UploadedBy([e], sender, receiver) ==
            if e.Stor? && Parse(e.line).from == sender && Parse(e.line).to == receiver then [e.path] else []
  {
    hide Parse;
    assert [e][..0] == [];
  }

  /** The line with which the receiver asks for a file reads the queue that the sender's line wrote. */
  lemma SameQueue(a: string, b: string, x: string, y: string)
    requires Plain(a) && a != "" && Plain(b) && b != "" && |Words(x)| == 1 && |Words(y)| == 1
    ensures Parse(Request("STOR", x, a, b)).kind == "STOR" && Parse(Request("RETR", y, b, a)).kind == "RETR"
    ensures UploadKey(Request("STOR", x, a, b)) == DownloadKey(Request("RETR", y, b, a)) == "file:" + a + ":" + b
  {
    assert Plain("STOR") && Plain("RETR");
    hide Parse, Words, Plain, Request;
    NamesArriveIff("STOR", x, a, b);
    NamesArriveIff("RETR", y, b, a);
  }

  // ---------- what one event does ----------

  /** An upload puts its path behind the others of its key; the beginning of a download changes no
      list and notes the head; its end takes one such path off and adds it to those handed over; and
      nothing else happens under any key. */
  lemma EventEffect(s: State, e: Event, key: string)
    requires Guard(s, e)
    ensures var l, l2, c, c2 := ListAt(s.lists, key), ListAt(Next(s, e).lists, key), Completed(s, key), Completed(Next(s, e), key);
            match e
            case Stor(line, path) => c2 == c && l2 == if UploadKey(line) == key then l + [path] else l
            case Retr(_, _) => c2 == c && l2 == l
            case Done(conn) =>
              if s.active[conn].key == key then c2 == c + [s.active[conn].path] && l2 == Removed(l, s.active[conn].path)
              else c2 == c && l2 == l
    ensures match e
            case Stor(_, _) => Next(s, e).active == s.active
            case Retr(conn, line) =>
              Next(s, e).active == s.active[conn := Download(DownloadKey(line), ListAt(s.lists, DownloadKey(line))[0])]
            case Done(conn) => Next(s, e).active == s.active - {conn}
  {
    hide Key, Parse, Removed;
  }

  lemma {:induction false} RemovedFrom(l: seq<string>, path: string)
    ensures forall x | x in Removed(l, path) :: x in l
  {
    if |l| > 0 {
      assert l == [l[0]] + l[1..];
      if l[0] != path { RemovedFrom(l[1..], path); }
    }
  }

  lemma {:induction false} ListedWasUploaded(es: seq<Event>, key: string)
    requires Runs(es)
    ensures forall x | x in ListAt(After(es).lists, key) :: x in Uploaded(es, key)
    decreases |es|
  {
    if |es| > 0 {
      hide Key, Parse, Next, Guard, Removed;
      var before, e := es[..|es| - 1], es[|es| - 1];
      ListedWasUploaded(before, key);
      EventEffect(After(before), e, key);
      if e.Done? { RemovedFrom(ListAt(After(before).lists, key), After(before).active[e.conn].path); }
    }
  }

  /** What a download takes is a file that the sender it names uploaded for the receiver it names; where
      the pair's downloads do not overlap, the first one not handed over yet. */
  lemma DownloadTakesUpload(es: seq<Event>, conn: nat, line: string)
    requires Runs(es + [Retr(conn, line)]) && PlainSenders(es) && NoChar(Parse(line).to, ':')
    ensures Runs(es)
    ensures var sender, receiver := Parse(line).to, Parse(line).from;
            var ups := UploadedBy(es, sender, receiver);
            var s, s2 := After(es), After(es + [Retr(conn, line)]);
            && conn in s2.active && s2.active[conn].path in ups
            && (Sequential(es, DownloadKey(line)) ==>
                  var k := |Completed(s, DownloadKey(line))|;
                  k < |ups| && s2.active[conn].path == ups[k] && Completed(s, DownloadKey(line)) == ups[..k])
  {
    assert (es + [Retr(conn, line)])[..|es|] == es;
    var key := DownloadKey(line);
    KeySelectsPair(es, Parse(line).to, Parse(line).from);
    ListedWasUploaded(es, key);
    EventEffect(After(es), Retr(conn, line), key);
    assert After(es + [Retr(conn, line)]) == Next(After(es), Retr(conn, line));
    hide Key, Parse, Next, Removed;
    if Sequential(es, key) { UploadsAreHandedOver(es, key); }
  }

  /** What is uploaded under a pair's key is what the sender uploaded for the receiver. */
  lemma {:induction false} KeySelectsPair(es: seq<Event>, sender: string, receiver: string)
    requires PlainSenders(es) && NoChar(sender, ':')
    ensures Uploaded(es, Key(sender, receiver)) == UploadedBy(es, sender, receiver)
    decreases |es|
  {
    if |es| > 0 {
      hide Key, NoChar, Parse;
      KeySelectsPair(es[..|es| - 1], sender, receiver);
      var e := es[|es| - 1];
      if e.Stor? { KeyInjective(Parse(e.line).from, Parse(e.line).to, sender, receiver); }
    }
  }

  // ---------- sending the bytes ----------

  /** What the kernel answers to one `send`: how much it took at most, try again, or an error. */
  datatype Answer = Took(n: nat) | Again | Failed

  const BLOCK := 1024

  function Cut(file: seq<Byte>, n: nat): nat {
    if n < |file| then n else |file|
  }

  /** The k-th block that `read` gives. */
  function Block(file: seq<Byte>, k: nat): seq<Byte> {
    file[Cut(file, k * BLOCK)..Cut(file, k * BLOCK + BLOCK)]
  }

  ghost predicate Fit(file: seq<Byte>, cuts: seq<nat>) {
    forall k | 0 <= k < |cuts| :: cuts[k] <= |Block(file, k)|
  }

  /** The first cuts[k] bytes of every block k, in order. */
  ghost function Kept(file: seq<Byte>, cuts: seq<nat>): seq<Byte>
    requires Fit(file, cuts)
  {
    if |cuts| == 0 then []
    else
      var n := |cuts| - 1;
      Kept(file, cuts[..n]) + Block(file, n)[..cuts[n]]
  }

  // ---------- the server ----------

  /** How a command ended: with a reply, or still waiting for the kernel to take bytes. */
  datatype Reply = Stored | NotFound | Complete | Waiting | Other

  class FtpServer {
    var lists: map<string, seq<string>>
    ghost var active: map<nat, Download>
    ghost var completed: map<string, seq<string>>
    ghost var wire: seq<Byte>  // what the data connection took

    ghost function Snapshot(): State
      reads this
    {
      State(lists, active, completed)
    }

    constructor ()
      ensures Snapshot() == START && wire == []
    {
      lists, active, completed, wire := map[], map[], map[], [];
    }

    method SetFile(username: string, setName: string, field: string)
      modifies this`lists
      ensures var key := Key(username, setName);
              lists == old(lists)[key := ListAt(old(lists), key) + [field]]
    {
      var key := "file:" + username + ":" + setName;
      lists := lists[key := ListAt(lists, key) + [field]];
    }

    method GetFile(username: string, setName: string) returns (values: seq<string>)
      ensures values == ListAt(lists, Key(username, setName))
    {
      values := ListAt(lists, "file:" + username + ":" + setName);
    }

    method DeleteFile(username: string, setName: string, field: string) returns (one: bool)
      modifies this`lists
      ensures var key := Key(username, setName);
              && lists == old(lists)[key := Removed(ListAt(old(lists), key), field)]
              && (one <==> field in ListAt(old(lists), key))
    {
      var key := "file:" + username + ":" + setName;
      one := field in ListAt(lists, key);
      lists := lists[key := Removed(ListAt(lists, key), field)];
    }

    /** `file_creat` for the file of this path. */
    method FileCreat(username: string, toName: string, p: string)
      modifies this`lists
      ensures var key := Key(username, toName);
              lists == old(lists)[key := ListAt(old(lists), key) + [p]]
    {
      SetFile(username, toName, p);
    }

    /** `send_file`: the head of the list, the bytes, and the head off again - also when a send failed
        hard and the receiver got less than the file. `disk` holds the files. */
    method SendFile(fromName: string, toName: string, disk: map<string, seq<Byte>>, answers: seq<Answer>)
      returns (reply: Reply, fileName: string, used: nat)
      requires ListAt(lists, Key(toName, fromName)) != []
      modifies this`lists, this`wire
      ensures fileName == ListAt(old(lists), Key(toName, fromName))[0]
      ensures reply == NotFound <==> fileName !in disk
      ensures reply == NotFound ==> lists == old(lists) && wire == old(wire)
      ensures reply == Waiting ==> lists == old(lists)
      ensures reply == NotFound || reply == Waiting || reply == Complete
      ensures reply == Complete ==>
                var key := Key(toName, fromName);
                lists == if NoChar(fromName, ' ') then old(lists)[key := Removed(ListAt(old(lists), key), fileName)] else old(lists)
      ensures used <= |answers|
      ensures reply == Complete ==> (wire == old(wire) + disk[fileName] <==> Failed !in answers[..used])
      ensures reply == Waiting && Failed !in answers ==> old(wire) <= wire <= old(wire) + disk[fileName]
    {
      used := 0;
      var fileNames := GetFile(toName, fromName);
      fileName := fileNames[0];
      if fileName !in disk { return NotFound, fileName, 0; }
      var finished;
      ghost var cuts;
      used, finished, cuts := SendBytes(disk[fileName], answers);
      if !finished {
        assert answers[..used] == answers;
        return Waiting, fileName, used;
      }
      if FirstOf(fromName, ' ') == |fromName| {
        assert fromName[..|fromName|] == fromName;
        var _ := DeleteFile(toName, fromName, fileName);
      }
      reply := Complete;
    }

    /** `cmd_execute`, for a connection that has no download going on. */
    method CmdExecute(conn: nat, line: string, p: string, disk: map<string, seq<Byte>>, answers: seq<Answer>)
      returns (reply: Reply, used: nat)
      requires Parse(line).kind == "RETR" ==> ListAt(lists, DownloadKey(line)) != [] && conn !in active
      modifies this
      ensures reply == Stored <==> Parse(line).kind == "STOR"
      ensures reply == Stored ==> Snapshot() == Next(old(Snapshot()), Stor(line, p))
      ensures reply == Waiting ==> Parse(line).kind == "RETR" && Snapshot() == Next(old(Snapshot()), Retr(conn, line))
      ensures reply == Complete ==>
                Parse(line).kind == "RETR" && Snapshot() == Next(Next(old(Snapshot()), Retr(conn, line)), Done(conn))
      ensures reply == NotFound || reply == Other ==> Snapshot() == old(Snapshot())
      ensures used <= |answers|
      ensures reply == Complete ==>
                var head := ListAt(old(lists), DownloadKey(line))[0];
                head in disk && (wire == old(wire) + disk[head] <==> Failed !in answers[..used])
      ensures reply == Stored || reply == NotFound || reply == Other ==> wire == old(wire)
    {
      hide Parse, Key, Removed, NoChar;
      var l := Parse(line);
      reply, used := Other, 0;
      if l.kind == "STOR" {
        FileCreat(l.from, l.to, p);
        reply := Stored;
      } else if l.kind == "RETR" {
        ParsedPlain(line);
        var fileName;
        ghost var before := Snapshot();
        reply, fileName, used := SendFile(l.from, l.to, disk, answers);
        ghost var d := Download(DownloadKey(line), fileName);
        if reply == Waiting {
          active := active[conn := d];
        } else if reply == Complete {
          assert before.active[conn := d] - {conn} == before.active;
          completed := completed[d.key := Completed(before, d.key) + [fileName]];
        }
      }
    }

    /** The loops of `send_file`. They end (`finished`) or still wait for the kernel's next answer.
        In the end a first part of each block is on the wire, in order; the parts are the whole file
        exactly if no answer was an error. */
    method SendBytes(file: seq<Byte>, answers: seq<Answer>) returns (used: nat, finished: bool, ghost cuts: seq<nat>)
      modifies this`wire
      ensures used <= |answers| && (!finished ==> used == |answers|)
      ensures Failed !in answers[..used] ==> old(wire) <= wire <= old(wire) + file
      ensures finished ==> (wire == old(wire) + file <==> Failed !in answers[..used])
      ensures finished ==> |cuts| == |file| / BLOCK + 1 && Fit(file, cuts) && wire == old(wire) + Kept(file, cuts)
    {
      hide Kept, Block, Cut, Fit;
      BlocksBegin(file);
      used, finished, cuts := 0, false, [];
      var pos, good := 0, true;
      while good
        invariant used <= |answers|
        invariant good ==> pos == |cuts| * BLOCK <= |file|
        invariant !good ==> pos == |file| && |cuts| == |file| / BLOCK + 1
        invariant Fit(file, cuts) && wire == old(wire) + Kept(file, cuts)
        invariant Failed !in answers[..used] ==> wire == old(wire) + file[..pos]
        invariant Failed in answers[..used] ==> |wire| < |old(wire)| + pos
        decreases |file| - pos, good
      {
        var size := if |file| - pos < BLOCK then |file| - pos else BLOCK;
        var test := file[pos..pos + size];
        BlockIs(file, |cuts|);
        ghost var seen := used;
        var sent, waiting;
        used, sent, waiting := SendBlock(test, answers, used);
        if waiting {
          WaitingPrefix(old(wire), file, pos, test, sent);
          InTwo(answers, seen, used);
          return;
        }
        InTwo(answers, seen, used);
        KeptStep(file, cuts, sent);
        Associative(old(wire), Kept(file, cuts), test[..sent]);
        cuts := cuts + [sent];
        if Failed !in answers[..used] {
          assert test[..sent] == test;
          Associative(old(wire), file[..pos], test);
          assert file[..pos] + test == file[..pos + size];
        }
        pos := pos + size;
        good := size == BLOCK;
      }
      finished := true;
      assert file[..pos] == file;
    }

    /** The inner loop: one block, until it is out, an answer is an error, or the kernel has not answered yet. */
    method SendBlock(test: seq<Byte>, answers: seq<Answer>, start: nat) returns (used: nat, sent: nat, waiting: bool)
      requires start <= |answers|
      modifies this`wire
      ensures start <= used <= |answers| && sent <= |test|
      ensures wire == old(wire) + test[..sent]
      ensures Failed in answers[start..used] ==> sent < |test|
      ensures waiting <==> Failed !in answers[start..used] && sent < |test|
      ensures waiting ==> used == |answers|
    {
      used, sent := start, 0;
      assert wire == old(wire) + test[..0];
      while sent < |test| && used < |answers|
        invariant start <= used <= |answers| && sent <= |test|
        invariant wire == old(wire) + test[..sent]
        invariant Failed !in answers[start..used]
        decreases |answers| - used
      {
        assert answers[start..used + 1] == answers[start..used] + [answers[used]];
        var len := answers[used];
        used := used + 1;
        match len
        case Took(n) =>
          var k := if n < |test| - sent then n else |test| - sent;
          assert test[..sent] + test[sent..sent + k] == test[..sent + k];
          wire := wire + test[sent..sent + k];
          sent := sent + k;
        case Again =>
        case Failed => return used, sent, false;
      }
      waiting := sent < |test|;
    }
  }

  lemma InTwo(answers: seq<Answer>, seen: nat, used: nat)
    requires seen <= used <= |answers|
    ensures Failed in answers[..used] <==> Failed in answers[..seen] || Failed in answers[seen..used]
  {
    assert answers[..used] == answers[..seen] + answers[seen..used];
  }

  lemma Associative(x: seq<Byte>, y: seq<Byte>, z: seq<Byte>)
    ensures x + y + z == x + (y + z)
  {
  }

  lemma WaitingPrefix(before: seq<Byte>, file: seq<Byte>, pos: nat, test: seq<Byte>, sent: nat)
    requires pos + |test| <= |file| && test == file[pos..pos + |test|] && sent <= |test|
    ensures before + file[..pos] + test[..sent] <= before + file
  {
    assert file[..pos] + test[..sent] == file[..pos + sent];
  }

  lemma BlocksBegin(file: seq<Byte>)
    ensures Fit(file, []) && Kept(file, []) == []
  {
  }

  lemma BlockIs(file: seq<Byte>, k: nat)
    requires k * BLOCK <= |file|
    ensures Block(file, k) == file[k * BLOCK..k * BLOCK + if |file| - k * BLOCK < BLOCK then |file| - k * BLOCK else BLOCK]
  {
  }

  lemma KeptStep(file: seq<Byte>, cuts: seq<nat>, sent: nat)
    requires Fit(file, cuts) && sent <= |Block(file, |cuts|)|
    ensures Fit(file, cuts + [sent])
    ensures Kept(file, cuts + [sent]) == Kept(file, cuts) + Block(file, |cuts|)[..sent]
  {
    assert (cuts + [sent])[..|cuts|] == cuts;
  }
}
