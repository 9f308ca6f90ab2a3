/**
  The registration and login server's receive path (src/Server/UserAuth/User_auth_s.cc):
  `onMessage` appends what one `read` returned, `handleProcess` parses every complete frame of
  the buffer into one and the same message, and the switch then acts on that message once.
*/
module AuthServer {
  import opened Prelude
  import opened Wire
  import opened Schema
  import opened AuthProto
  import opened GeneratedCode
  import opened AuthCode
  import opened Framing

  /** One frame's payload, parsed. */
  ghost function Parsed(p: seq<Byte>): (o: Option<Msg>)
    ensures o.Some? ==> Valid(AUTH, o.value)
  {
    Schema.ParseFromString(AUTH, p)
  }

  /** What a payload that does not parse leaves in the message it was parsed into. */
  ghost function LeftOf(p: seq<Byte>): Msg {
    DefaultValid(AUTH);
    Left(AUTH, Default(AUTH), p)
  }

  /** What parsing a buffer's frames gives: the messages, the bytes left, and whether a frame that
      does not parse stopped it. */
  datatype Drained = Drained(msgs: seq<Msg>, rest: seq<Byte>, stuck: bool)

  /** The loop of `handleProcess` ends: it does not meet a frame that parses and of which nothing is removed. */
  ghost predicate Stops(b: seq<Byte>)
    decreases |b|
  {
    Unpack(b).Some? && Parsed(Unpack(b).value.0).Some? ==>
      |Unpack(b).value.1| < |b| && Stops(Unpack(b).value.1)
  }

  /** For buffers on which the loop stops; the branch for the others has no meaning. */
  ghost function Consume(b: seq<Byte>): Drained
    decreases |b|
  {
    if Unpack(b).None? then Drained([], b, false)
    else
      var (p, rest) := Unpack(b).value;
      var o := Parsed(p);
      if o.None? then Drained([], b, true)
      else if |rest| < |b| then
        var d := Consume(rest);
        d.(msgs := [o.value] + d.msgs)
      else Drained([], b, false)
  }

  ghost function Latest(msgs: seq<Msg>): Msg {
    if |msgs| == 0 then Default(AUTH) else msgs[|msgs| - 1]
  }

  /** The message the switch sees: what a malformed frame left, the last message parsed, or a default one. */
  ghost function Seen(d: Drained): Msg {
    if d.stuck && Unpack(d.rest).Some? then LeftOf(Unpack(d.rest).value.0) else Latest(d.msgs)
  }

  lemma ConsumeStep(b: seq<Byte>)
    requires Stops(b)
    ensures if Unpack(b).None? then Consume(b) == Drained([], b, false)
            else
              var (p, rest) := Unpack(b).value;
              if Parsed(p).None? then Consume(b) == Drained([], b, true)
              else && |rest| < |b| && Stops(rest)
                   && Consume(b) == Consume(rest).(msgs := [Parsed(p).value] + Consume(rest).msgs)
  {
    hide Unpack, Parsed;
  }

  lemma StopsStep(b: seq<Byte>)
    requires Unpack(b).Some? && Parsed(Unpack(b).value.0).Some?
    ensures Stops(b) <==> |Unpack(b).value.1| < |b| && Stops(Unpack(b).value.1)
  {
    hide Unpack, Parsed;
  }

  /** After n turns of the loop no complete frame is there, or it does not parse. */
  ghost predicate HaltsAfter(b: seq<Byte>, n: nat) {
    if Unpack(b).None? || Parsed(Unpack(b).value.0).None? then n == 0
    else n > 0 && HaltsAfter(Unpack(b).value.1, n - 1)
  }

  lemma {:induction false} TurnsUntilHalt(b: seq<Byte>) returns (n: nat)
    requires Stops(b)
    ensures HaltsAfter(b, n)
    decreases |b|
  {
    hide Unpack, Parsed;
    if Unpack(b).None? || Parsed(Unpack(b).value.0).None? {
      n := 0;
    } else {
      n := TurnsUntilHalt(Unpack(b).value.1);
      n := n + 1;
    }
  }

  lemma {:induction false} NeverHalts(b: seq<Byte>, n: nat)
    requires Unpack(b).Some? && Parsed(Unpack(b).value.0).Some? && Unpack(b).value.1 == b
    ensures !HaltsAfter(b, n)
  {
    hide Unpack, Parsed;
    if n > 0 { NeverHalts(b, n - 1); }
  }

  lemma {:induction false} HaltedStops(b: seq<Byte>, n: nat)
    requires HaltsAfter(b, n)
    ensures Stops(b)
    decreases n
  {
    hide Unpack, Parsed;
    if Unpack(b).Some? && Parsed(Unpack(b).value.0).Some? {
      StopsStep(b);
      UnpackShorter(b);
      HaltedStops(Unpack(b).value.1, n - 1);
      if Unpack(b).value.1 == b { NeverHalts(b, n); }
    }
  }

  /** `Stops` is the termination of the loop: after some number of turns it halts. */
  lemma StopsIff(b: seq<Byte>)
    ensures Stops(b) <==> exists n: nat :: HaltsAfter(b, n)
  {
    hide Stops, HaltsAfter;
    if Stops(b) { var n := TurnsUntilHalt(b); }
    forall n: nat | HaltsAfter(b, n) ensures Stops(b) { HaltedStops(b, n); }
  }

  /** Where `readMessage` would end, so does this loop; it also ends at a header of 2^32 - 4 when
      what is behind it does not parse. */
  lemma {:induction false} EndsStops(b: seq<Byte>)
    ensures Ends(b) ==> Stops(b)
    ensures |b| >= 4 && HeaderValue(b) == LIMIT ==> (Stops(b) <==> Parsed(b[4..Min(4 + LIMIT, |b|)]).None?)
    decreases |b|
  {
    if |b| >= 4 && HeaderValue(b) == LIMIT { assert Unpack(b) == Some((b[4..Min(4 + LIMIT, |b|)], b)); }
    hide Unpack, Parsed;
    if Unpack(b).Some? && |Unpack(b).value.1| < |b| { EndsStops(Unpack(b).value.1); }
  }

  // ---------- the server ----------

  class Client {
    var buffer: seq<Byte>          // handle_c[cli].handle_buffer
    ghost var dispatched: seq<Msg> // what the switch acted on, read by read

    constructor ()
      ensures buffer == [] && dispatched == []
    {
      buffer, dispatched := [], [];
    }

    method HandleProcess(authMsg: Message)
      requires Stops(buffer)
      requires authMsg.code == AUTH_CODE && authMsg.schema == AUTH
      modifies this`buffer, authMsg
      ensures buffer == Consume(old(buffer)).rest
      ensures var d := Consume(old(buffer));
              authMsg.Contents() == if |d.msgs| == 0 && !d.stuck then old(authMsg.Contents()) else Seen(d)
    {
      hide Parsed, Left, Consume, Stops, HeaderValue, Conforms, Schema.ParseFromString, LeftOf, Seen, Latest, Unpack, Valid, Default;
      AuthConforms();
      ghost var goal := Consume(buffer);
      ghost var parsed: seq<Msg> := [];
      assert parsed + goal.msgs == goal.msgs;
      while |buffer| >= 4
        invariant Stops(buffer)
        invariant goal == Consume(buffer).(msgs := parsed + Consume(buffer).msgs)
        invariant authMsg.Contents() == if |parsed| == 0 then old(authMsg.Contents()) else Latest(parsed)
        decreases |buffer|
      {
        ConsumeStep(buffer);
        UnpackParts(buffer);
        var len := HeaderValue(buffer);
        if |buffer| < (len + 4) % TWO32 { break; }
        var msg := buffer[4..Min(4 + len, |buffer|)];
        var ok := authMsg.ParseFromString(msg);
        ParsedOrLeft(msg);
        if !ok {
          assert parsed + [] == parsed;
          SeenCases(parsed, buffer, msg);
          return;
        }
        buffer := buffer[Min((4 + len) % TWO32, |buffer|)..];
        MoveMessage(parsed, [authMsg.Contents()], Consume(buffer).msgs);
        parsed := parsed + [authMsg.Contents()];
        LatestAppended(parsed);
      }
      ConsumeStep(buffer);
      UnpackParts(buffer);
      assert parsed + [] == parsed;
      SeenCases(parsed, buffer, []);
    }

    /** `unpack` and this loop cut a buffer alike. */
    static lemma UnpackParts(b: seq<Byte>)
      ensures Unpack(b) ==
              if |b| < 4 || |b| < (HeaderValue(b) + 4) % TWO32 then None
              else Some((b[4..Min(4 + HeaderValue(b), |b|)], b[Min((HeaderValue(b) + 4) % TWO32, |b|)..]))
    {
    }

    static lemma SeenCases(parsed: seq<Msg>, rest: seq<Byte>, p: seq<Byte>)
      ensures Seen(Drained(parsed, rest, false)) == Latest(parsed)
      ensures Unpack(rest).Some? && Unpack(rest).value.0 == p ==> Seen(Drained(parsed, rest, true)) == LeftOf(p)
    {
      hide Unpack;
    }

    static lemma LatestAppended(parsed: seq<Msg>)
      ensures |parsed| > 0 ==> Latest(parsed) == parsed[|parsed| - 1]
    {
    }

    static lemma ParsedOrLeft(p: seq<Byte>)
      ensures Valid(AUTH, Default(AUTH)) && LeftOf(p) == Left(AUTH, Default(AUTH), p)
      ensures Parsed(p) == Schema.ParseFromString(AUTH, p)
    {
      DefaultValid(AUTH);
    }

    /** One `read` that returned some bytes. */
    method OnMessage(chunk: seq<Byte>)
      requires Stops(buffer + chunk)
      modifies this
      ensures buffer == Consume(old(buffer) + chunk).rest
      ensures dispatched == old(dispatched) + [Seen(Consume(old(buffer) + chunk))]
      ensures Serve(old(buffer), [chunk]) == (buffer, dispatched[|old(dispatched)|..])
    {
      hide Consume, Stops, Conforms, Left, Parsed, Seen, Serve;
      ServeOne(buffer, chunk);
      buffer := buffer + chunk;
      ghost var buffer0 := buffer;
      AuthConforms();
      Message.EmptyIsDefault(AUTH_CODE, AUTH);
      var authMsg := new Message(AUTH_CODE, AUTH, Message.Empty(AUTH_CODE));
      HandleProcess(authMsg);
      EmptySeen(Consume(buffer0));
      dispatched := dispatched + [authMsg.Contents()];
    }

    static lemma EmptySeen(d: Drained)
      ensures |d.msgs| == 0 && !d.stuck ==> Seen(d) == Default(AUTH)
    {
    }

    /** The switch on the action of a message, with `Process` for action UNKNOWN. */
    static method Act(m: Msg) returns (events: seq<Event>)
      requires HasKinds(AUTH, m)
      ensures events == Events(m)
    {
      assert HasKind(AUTH[0], m.vals[0]) && HasKind(AUTH[7], m.vals[7]);
      var action, buf := m.vals[0].n, m.vals[7].s;
      events := [];
      if action == 0 {
        if REGISTER_WORD <= buf {
          events := [AskUserMessage];
        } else if LOGIN_WORD <= buf {
          events := [AskMessage];
        }
      } else if action == 3 {
        events := [Register(m)];
      } else if action == 1 {
        events := [LogIn(m)];
      } else if action == 4 {
        events := [CheckRegistration(m)];
      } else if action == 5 {
        events := [CheckLogin(m)];
      }
    }
  }

  // ---------- what the switch does ----------

  datatype Event = AskUserMessage | AskMessage | Register(m: Msg) | LogIn(m: Msg) | CheckRegistration(m: Msg) | CheckLogin(m: Msg)

  const REGISTER_WORD: seq<Byte> := [114, 101, 103, 105, 115, 116, 101, 114]
  const LOGIN_WORD: seq<Byte> := [108, 111, 103, 105, 110]

  /** The switch on the action, with `Process` for action UNKNOWN: a reply only to a text that
      begins with "register" or "login". */
  ghost function Events(m: Msg): seq<Event>
    requires HasKinds(AUTH, m)
  {
    assert HasKind(AUTH[0], m.vals[0]) && HasKind(AUTH[7], m.vals[7]);
    var action, text := m.vals[0].n, m.vals[7].s;
    if action == 0 then
      if REGISTER_WORD <= text then [AskUserMessage]
      else if LOGIN_WORD <= text then [AskMessage]
      else []
    else if action == 3 then [Register(m)]
    else if action == 1 then [LogIn(m)]
    else if action == 4 then [CheckRegistration(m)]
    else if action == 5 then [CheckLogin(m)]
    else []
  }

  /** A text begins with the bytes of an ASCII word. */
  predicate BeginsWith(text: seq<Byte>, word: string) {
    |text| >= |word| && forall i | 0 <= i < |word| :: text[i] as int == word[i] as int
  }

  /** At most one thing happens, and exactly this: UNKNOWN (0) asks for more if the text begins with one
      of the two words, REGISTER (3), LOGIN (1), RVERIFY (4) and LVERIFY (5) are carried out on the
      message, and every other action does nothing. */
  lemma EventsAre(m: Msg)
    requires HasKinds(AUTH, m)
    ensures HasKind(AUTH[0], m.vals[0]) && HasKind(AUTH[7], m.vals[7])
    ensures var action, text, es := m.vals[0].n, m.vals[7].s, Events(m);
            && |es| <= 1
            && (AskUserMessage in es <==> action == 0 && BeginsWith(text, "register"))
            && (AskMessage in es <==> action == 0 && BeginsWith(text, "login"))
            && (forall x :: Register(x) in es <==> action == 3 && x == m)
            && (forall x :: LogIn(x) in es <==> action == 1 && x == m)
            && (forall x :: CheckRegistration(x) in es <==> action == 4 && x == m)
            && (forall x :: CheckLogin(x) in es <==> action == 5 && x == m)
  {
    assert HasKind(AUTH[0], m.vals[0]) && HasKind(AUTH[7], m.vals[7]);
    Begins(m.vals[7].s);
    hide BeginsWith, HasKinds;
  }

  lemma Begins(text: seq<Byte>)
    ensures REGISTER_WORD <= text <==> BeginsWith(text, "register")
    ensures LOGIN_WORD <= text <==> BeginsWith(text, "login")
    ensures !(BeginsWith(text, "register") && BeginsWith(text, "login"))
  {
    if BeginsWith(text, "register") {
      assert text[..8] == REGISTER_WORD;
      assert "register"[0] == 'r' && "login"[0] == 'l';
    }
    if BeginsWith(text, "login") { assert text[..5] == LOGIN_WORD; }
  }

  /** A read that completes no frame causes nothing. */
  lemma DefaultIsQuiet()
    ensures HasKinds(AUTH, Default(AUTH)) && Events(Default(AUTH)) == []
  {
    DefaultValid(AUTH);
    KindsOfValid(AUTH, Default(AUTH));
  }

  /** The switch can act on every message it sees, a half filled one included. */
  lemma SeenHasKinds(b: seq<Byte>)
    ensures HasKinds(AUTH, Seen(Consume(b)))
    decreases |b|
  {
    DefaultValid(AUTH);
    KindsOfValid(AUTH, Default(AUTH));
    var d := Consume(b);
    if d.stuck && Unpack(d.rest).Some? {
      LeftHasKinds(AUTH, Default(AUTH), Unpack(d.rest).value.0);
    } else {
      MessagesValid(b);
      if |d.msgs| > 0 { KindsOfValid(AUTH, Latest(d.msgs)); }
    }
  }

  lemma {:induction false} MessagesValid(b: seq<Byte>)
    ensures forall m | m in Consume(b).msgs :: Valid(AUTH, m)
    decreases |b|
  {
    hide Unpack, Parsed, Valid;
    if Unpack(b).Some? && |Unpack(b).value.1| < |b| { MessagesValid(Unpack(b).value.1); }
  }

  // ---------- a sequence of reads ----------

  /** No header wraps around before the first frame that does not parse. */
  ghost predicate Clean(b: seq<Byte>)
    decreases |b|
  {
    |b| >= 4 ==> HeaderValue(b) < LIMIT && (HasFrame(b) && Parsed(Payload(b)).Some? ==> Clean(After(b)))
  }

  lemma {:induction false} SaneClean(b: seq<Byte>)
    requires Sane(b)
    ensures Clean(b)
    decreases |b|
  {
    hide Parsed;
    if HasFrame(b) { SaneClean(After(b)); }
  }

  lemma {:induction false} CleanPrefix(b: seq<Byte>, more: seq<Byte>)
    requires Clean(b + more)
    ensures Clean(b)
    decreases |b|
  {
    hide Parsed;
    if |b| >= 4 { assert HeaderValue(b + more) == HeaderValue(b); }
    if HasFrame(b) {
      FrameExtends(b, more);
      if Parsed(Payload(b)).Some? { CleanPrefix(After(b), more); }
    }
  }

  /** On such a buffer the loop takes complete frames until one does not parse. */
  lemma {:induction false} ConsumeFrames(b: seq<Byte>)
    requires Clean(b)
    ensures Stops(b)
    ensures !HasFrame(b) ==> Consume(b) == Drained([], b, false)
    ensures HasFrame(b) ==>
              && |After(b)| < |b|
              && (Parsed(Payload(b)).None? ==> Consume(b) == Drained([], b, true))
              && (Parsed(Payload(b)).Some? ==>
                    Clean(After(b)) &&
                    Consume(b) == Consume(After(b)).(msgs := [Parsed(Payload(b)).value] + Consume(After(b)).msgs))
    decreases |b|
  {
    hide Parsed;
    UnpackIsFrame(b);
    if HasFrame(b) && Parsed(Payload(b)).Some? {
      ConsumeFrames(After(b));
      StopsStep(b);
    }
    ConsumeStep(b);
  }

  lemma {:induction false} ConsumeExtends(b: seq<Byte>, more: seq<Byte>)
    requires Clean(b + more)
    ensures Clean(b) && Clean(Consume(b).rest + more)
    ensures var d := Consume(b);
            Consume(b + more) ==
            if d.stuck then Drained(d.msgs, d.rest + more, true)
            else var e := Consume(d.rest + more); e.(msgs := d.msgs + e.msgs)
    decreases |b|
  {
    hide Parsed, Consume, Clean, HasFrame, Payload, After, Stops;
    CleanPrefix(b, more);
    ConsumeFrames(b);
    if HasFrame(b) {
      ConsumeFrames(b + more);
      FrameExtends(b, more);
      if Parsed(Payload(b)).Some? {
        ConsumeExtends(After(b), more);
        var d := Consume(After(b));
        MoveMessage([Parsed(Payload(b)).value], d.msgs, Consume(d.rest + more).msgs);
      }
    } else {
      assert [] + Consume(b + more).msgs == Consume(b + more).msgs;
    }
  }

  lemma MoveMessage(x: seq<Msg>, y: seq<Msg>, z: seq<Msg>)
    ensures x + (y + z) == (x + y) + z
  {
  }

  /** The loop parses the frames in order up to the first that does not parse. */
  lemma {:induction false} ConsumeIsDrain(b: seq<Byte>)
    requires Clean(b)
    ensures var d, ps := Consume(b), Drain(b).0;
            && |d.msgs| <= |ps| && (forall i | 0 <= i < |d.msgs| :: Parsed(ps[i]) == Some(d.msgs[i]))
            && (d.stuck ==> |d.msgs| < |ps| && Parsed(ps[|d.msgs|]).None? && HasFrame(d.rest) && Payload(d.rest) == ps[|d.msgs|])
            && (!d.stuck ==> |d.msgs| == |ps| && d.rest == Drain(b).1)
    decreases |b|
  {
    hide Parsed, Consume, Clean, HasFrame, Payload, After, Drain, Stops;
    ConsumeFrames(b);
    DrainStep(b);
    if HasFrame(b) && Parsed(Payload(b)).Some? { ConsumeIsDrain(After(b)); }
  }

  /** A stream gets stuck exactly if one of its complete frames does not parse. */
  lemma StuckIff(b: seq<Byte>)
    requires Clean(b)
    ensures Consume(b).stuck <==> exists p :: p in Drain(b).0 && Parsed(p).None?
  {
    hide Parsed, Consume, Clean, HasFrame, Payload, Drain;
    ConsumeIsDrain(b);
  }

  /** A frame that does not parse stays at the head of the buffer: whatever bytes arrive later, the
      same bytes stay, no further message is parsed, and at every read the switch sees the same
      message, the one which that frame left half filled. */
  lemma MalformedFrameBlocks(b: seq<Byte>, more: seq<Byte>)
    requires Clean(b) && Consume(b).stuck
    ensures var d := Consume(b);
            && Consume(d.rest + more) == Drained([], d.rest + more, true) && Clean(d.rest + more)
            && HasFrame(d.rest) && Seen(d) == LeftOf(Payload(d.rest)) && Seen(Consume(d.rest + more)) == Seen(d)
  {
    var rest := Consume(b).rest;
    ConsumeIsDrain(b);
    hide Consume, Drain, LeftOf, Parsed;
    FrameExtends(rest, more);
    UnpackIsFrame(rest);
    UnpackIsFrame(rest + more);
    assert Clean(rest + more);
    ConsumeFrames(rest + more);
  }

  /** The buffer after a sequence of chunks, and the message the switch saw at each of them, as
      `OnMessage` leaves them. */
  ghost function Serve(b: seq<Byte>, chunks: seq<seq<Byte>>): (r: (seq<Byte>, seq<Msg>))
    ensures |r.1| == |chunks|
    decreases |chunks|
  {
    if |chunks| == 0 then (b, [])
    else
      var d := Consume(b + chunks[0]);
      var (rest, seen) := Serve(d.rest, chunks[1..]);
      (rest, [Seen(d)] + seen)
  }

  lemma ServeOne(b: seq<Byte>, chunk: seq<Byte>)
    ensures Serve(b, [chunk]) == (Consume(b + chunk).rest, [Seen(Consume(b + chunk))])
  {
    hide Consume, Seen;
    var d := Consume(b + chunk);
    assert [chunk][1..] == [] && Serve(d.rest, []) == (d.rest, []);
    assert [Seen(d)] + [] == [Seen(d)];
  }

  /** Of the frames in a buffer the switch sees the last, or what the first malformed one left. */
  lemma SeenIsLastFrame(b: seq<Byte>)
    requires Clean(b)
    ensures Valid(AUTH, Default(AUTH))
    ensures var ps, d := Drain(b).0, Consume(b);
            && (!d.stuck && |ps| == 0 ==> Seen(d) == Default(AUTH))
            && (!d.stuck && |ps| > 0 ==> Parsed(ps[|ps| - 1]) == Some(Seen(d)))
    ensures Consume(b).stuck ==>
              var ps := Drain(b).0;
              exists k :: 0 <= k < |ps| && (forall i | 0 <= i < k :: Parsed(ps[i]).Some?) && Parsed(ps[k]).None?
                && Seen(Consume(b)) == Left(AUTH, Default(AUTH), ps[k])
  {
    ConsumeIsDrain(b);
    DefaultValid(AUTH);
    var d := Consume(b);
    if d.stuck {
      MalformedFrameBlocks(b, []);
      var p := Payload(d.rest);
      assert LeftOf(p) == Left(AUTH, Default(AUTH), p);
    }
    hide Consume, Drain, Parsed, Left, Clean, HasFrame, Payload, LeftOf;
  }

  ghost function Flat(chunks: seq<seq<Byte>>): seq<Byte> {
    if |chunks| == 0 then [] else chunks[0] + Flat(chunks[1..])
  }

  ghost function Flatten(parts: seq<seq<seq<Byte>>>): seq<seq<Byte>> {
    if |parts| == 0 then [] else parts[0] + Flatten(parts[1..])
  }

  /** A message a peer can send, and the frame that carries it. */
  ghost predicate CanSend(m: Msg) {
    Valid(AUTH, m) && Schema.SerializeToString(AUTH, m).Some?
  }

  /** The shortest one is empty. */
  lemma DefaultCanSend()
    ensures CanSend(Default(AUTH)) && Frame(Default(AUTH)) == [0, 0, 0, 0]
  {
    DefaultValid(AUTH);
    NothingPrinted(AUTH, |AUTH|);
    assert ToRecords(AUTH, Default(AUTH)) == [];
    assert Serialize(AUTH, Default(AUTH)) == [];
    assert Pack([]) == [0, 0, 0, 0];
  }

  lemma {:induction false} NothingPrinted(s: seq<Field>, n: nat)
    requires n <= |s|
    ensures Valid(s, Default(s)) && FieldRecords(s, Default(s), n) == []
    decreases n
  {
    DefaultValid(s);
    if n > 0 { NothingPrinted(s, n - 1); }
  }

  ghost function Frame(m: Msg): seq<Byte>
    requires CanSend(m)
  {
    Pack(Schema.SerializeToString(AUTH, m).value)
  }

  lemma FrameIsConsumed(m: Msg)
    requires CanSend(m)
    ensures Clean(Frame(m)) && Consume(Frame(m)) == Drained([m], [], false)
  {
    var p := Schema.SerializeToString(AUTH, m).value;
    SerializedSize(m);
    SchemasValid();
    ParseUndoesSerialize(AUTH, m);
    assert Parsed(p) == Some(m);
    PackedFrame(p, []);
    DrainFrame(p, []);
    SaneClean(Pack(p) + []);
    assert Frame(m) + [] == Frame(m) == Pack(p);
    ConsumeFrames(Frame(m));
    ConsumeFrames([]);
    hide Schema.SerializeToString, Parsed, Consume, Pack, HasFrame;
    assert [m] + [] == [m];
  }

  lemma SerializedSize(m: Msg)
    requires CanSend(m)
    ensures |Schema.SerializeToString(AUTH, m).value| <= MAX_SIZE < LIMIT
  {
  }

  lemma PartialIsNotConsumed(m: Msg, b: seq<Byte>)
    requires CanSend(m) && b < Frame(m)
    ensures Clean(b) && Consume(b) == Drained([], b, false)
  {
    hide Schema.SerializeToString, Consume;
    SerializedSize(m);
    PartialFrame(Schema.SerializeToString(AUTH, m).value, b);
    SaneClean(b);
    ConsumeFrames(b);
  }

  lemma {:induction false} ServeConcat(b: seq<Byte>, x: seq<seq<Byte>>, y: seq<seq<Byte>>)
    ensures Serve(b, x + y) == (Serve(Serve(b, x).0, y).0, Serve(b, x).1 + Serve(Serve(b, x).0, y).1)
    decreases |x|
  {
    hide Consume, Seen;
    if |x| == 0 {
      assert x + y == y;
      assert [] + Serve(b, y).1 == Serve(b, y).1;
    } else {
      assert (x + y)[0] == x[0] && (x + y)[1..] == x[1..] + y;
      var d := Consume(b + x[0]);
      ServeConcat(d.rest, x[1..], y);
      var s, t := Serve(d.rest, x[1..]), Serve(Serve(b, x).0, y);
      assert [Seen(d)] + (s.1 + t.1) == ([Seen(d)] + s.1) + t.1;
    }
  }

  ghost function Quiet(n: nat): seq<Msg> {
    seq(n, _ => Default(AUTH))
  }

  /** One frame, cut anywhere into chunks: every read but the last sees a default message, and the
      last one sees the message. */
  lemma {:induction false} OneFrame(m: Msg, got: seq<Byte>, chunks: seq<seq<Byte>>)
    requires CanSend(m) && got + Flat(chunks) == Frame(m) && got != Frame(m)
    requires forall i | 0 <= i < |chunks| :: chunks[i] != []
    ensures |chunks| > 0 && Serve(got, chunks) == ([], Quiet(|chunks| - 1) + [m])
    decreases |chunks|
  {
    assert Flat([]) == [];
    assert |chunks| > 0;
    hide Consume, Frame, CanSend, Seen;
    var b := got + chunks[0];
    assert b + Flat(chunks[1..]) == Frame(m);
    SeenOf(m, b);
    if b == Frame(m) {
      EmptyReads(m, chunks[1..]);
      FrameIsConsumed(m);
      SeenOf(m, []);
      assert Serve([], []) == ([], []);
      assert Quiet(0) + [m] == [m] + [];
    } else {
      PartialIsNotConsumed(m, b);
      OneFrame(m, b, chunks[1..]);
      assert [Default(AUTH)] + (Quiet(|chunks| - 2) + [m]) == Quiet(|chunks| - 1) + [m];
    }
  }

  lemma SeenOf(m: Msg, rest: seq<Byte>)
    ensures Seen(Drained([m], rest, false)) == m && Seen(Drained([], rest, false)) == Default(AUTH)
  {
  }

  lemma EmptyReads(m: Msg, chunks: seq<seq<Byte>>)
    requires CanSend(m) && Frame(m) + Flat(chunks) == Frame(m)
    requires forall i | 0 <= i < |chunks| :: chunks[i] != []
    ensures chunks == []
  {
    assert |Flat(chunks)| == 0;
  }

  /** What the switch sees over a run in lock step. */
  ghost function Expected(ms: seq<Msg>, parts: seq<seq<seq<Byte>>>): seq<Msg>
    requires |ms| == |parts| && forall i | 0 <= i < |parts| :: |parts[i]| > 0
  {
    if |ms| == 0 then [] else Quiet(|parts[0]| - 1) + [ms[0]] + Expected(ms[1..], parts[1..])
  }

  /** Lock step: each frame is fully read before the next one arrives, but may be cut into any reads. */
  ghost predicate LockStep(ms: seq<Msg>, parts: seq<seq<seq<Byte>>>) {
    && |ms| == |parts|
    && forall i | 0 <= i < |ms| ::
         && CanSend(ms[i]) && |parts[i]| > 0 && Flat(parts[i]) == Frame(ms[i])
         && forall j | 0 <= j < |parts[i]| :: parts[i][j] != []
  }

  /** In lock step every message sent reaches the switch exactly once, in order; all other reads
      see a default message. */
  lemma {:induction false} LockStepDispatch(ms: seq<Msg>, parts: seq<seq<seq<Byte>>>)
    requires LockStep(ms, parts)
    ensures Serve([], Flatten(parts)) == ([], Expected(ms, parts))
    decreases |ms|
  {
    if |ms| > 0 {
      hide Serve, CanSend, Frame;
      FrameNotEmpty(ms[0]);
      assert [] + Flat(parts[0]) == Frame(ms[0]);
      OneFrame(ms[0], [], parts[0]);
      LockStepDispatch(ms[1..], parts[1..]);
      ServeConcat([], parts[0], Flatten(parts[1..]));
    } else {
      assert Flatten(parts) == [];
    }
  }

  /** The loop ends at every read. */
  ghost predicate AllStop(b: seq<Byte>, chunks: seq<seq<Byte>>)
    decreases |chunks|
  {
    |chunks| > 0 ==> Stops(b + chunks[0]) && AllStop(Consume(b + chunks[0]).rest, chunks[1..])
  }

  lemma {:induction false} CleanStops(b: seq<Byte>, chunks: seq<seq<Byte>>)
    requires Clean(b + Flat(chunks))
    ensures AllStop(b, chunks)
    decreases |chunks|
  {
    if |chunks| > 0 {
      hide Consume, Stops, Clean;
      var more := Flat(chunks[1..]);
      assert b + (chunks[0] + more) == b + chunks[0] + more;
      ConsumeExtends(b + chunks[0], more);
      ConsumeFrames(b + chunks[0]);
      CleanStops(Consume(b + chunks[0]).rest, chunks[1..]);
    }
  }

  /** So does the loop at every read of a run in lock step. */
  lemma {:induction false} LockStepIsSane(ms: seq<Msg>, parts: seq<seq<seq<Byte>>>)
    requires LockStep(ms, parts)
    ensures Sane(Flat(Flatten(parts))) && AllStop([], Flatten(parts))
    decreases |ms|
  {
    hide Sane, AllStop, CanSend, Frame;
    if |ms| > 0 {
      LockStepIsSane(ms[1..], parts[1..]);
      FlatConcat(parts[0], Flatten(parts[1..]));
      FrameThenSane(ms[0], Flat(Flatten(parts[1..])));
    } else {
      NothingIsSane();
    }
    assert [] + Flat(Flatten(parts)) == Flat(Flatten(parts));
    SaneClean(Flat(Flatten(parts)));
    CleanStops([], Flatten(parts));
  }

  lemma NothingIsSane()
    ensures Sane([])
  {
  }

  lemma FrameThenSane(m: Msg, rest: seq<Byte>)
    requires CanSend(m) && Sane(rest)
    ensures Sane(Frame(m) + rest)
  {
    hide Sane, Schema.SerializeToString;
    SerializedSize(m);
    DrainFrame(Schema.SerializeToString(AUTH, m).value, rest);
  }

  lemma {:induction false} FlatConcat(x: seq<seq<Byte>>, y: seq<seq<Byte>>)
    ensures Flat(x + y) == Flat(x) + Flat(y)
    decreases |x|
  {
    if |x| == 0 {
      assert x + y == y;
    } else {
      assert (x + y)[0] == x[0] && (x + y)[1..] == x[1..] + y;
      FlatConcat(x[1..], y);
    }
  }

  lemma FrameNotEmpty(m: Msg)
    requires CanSend(m)
    ensures |Frame(m)| >= 4
  {
  }

  // ---------- any bytes in any reads ----------

  /** The messages the switch gets to see beside default ones: one for each read that completes a
      frame or finds a malformed frame at the head. */
  ghost function Dispatched(b: seq<Byte>, chunks: seq<seq<Byte>>): seq<Msg>
    decreases |chunks|
  {
    if |chunks| == 0 then []
    else
      var d := Consume(b + chunks[0]);
      (if |d.msgs| == 0 && !d.stuck then [] else [Seen(d)]) + Dispatched(d.rest, chunks[1..])
  }

  ghost predicate OneFrameAtMost(b: seq<Byte>, chunks: seq<seq<Byte>>)
    decreases |chunks|
  {
    |chunks| > 0 ==>
      var d := Consume(b + chunks[0]);
      |d.msgs| <= 1 && OneFrameAtMost(d.rest, chunks[1..])
  }

  /** The reads at which a malformed frame is at the head. */
  ghost function StuckReads(b: seq<Byte>, chunks: seq<seq<Byte>>): nat
    decreases |chunks|
  {
    if |chunks| == 0 then 0
    else
      var d := Consume(b + chunks[0]);
      (if d.stuck then 1 else 0) + StuckReads(d.rest, chunks[1..])
  }

  lemma ReadStep(b: seq<Byte>, r: seq<Byte>, more: seq<Byte>)
    requires Clean(b + (r + more))
    ensures Clean(b + r) && Clean(Consume(b + r).rest + more)
    ensures var d := Consume(b + r);
            if d.stuck then
              && Consume(b + (r + more)) == Drained(d.msgs, d.rest + more, true)
              && Consume(d.rest + more) == Drained([], d.rest + more, true)
            else Consume(b + (r + more)) == Consume(d.rest + more).(msgs := d.msgs + Consume(d.rest + more).msgs)
  {
    hide Consume, Clean;
    assert b + r + more == b + (r + more);
    ConsumeExtends(b + r, more);
    if Consume(b + r).stuck { MalformedFrameBlocks(b + r, more); }
  }

  lemma {:induction false} DispatchedConcat(b: seq<Byte>, x: seq<seq<Byte>>, y: seq<seq<Byte>>)
    ensures Dispatched(b, x + y) == Dispatched(b, x) + Dispatched(Serve(b, x).0, y)
    decreases |x|
  {
    hide Consume, Seen;
    if |x| == 0 {
      assert x + y == y;
    } else {
      assert (x + y)[0] == x[0] && (x + y)[1..] == x[1..] + y;
      var d := Consume(b + x[0]);
      DispatchedConcat(d.rest, x[1..], y);
      MoveMessage(if |d.msgs| == 0 && !d.stuck then [] else [Seen(d)], Dispatched(d.rest, x[1..]), Dispatched(Serve(d.rest, x[1..]).0, y));
    }
  }

  lemma {:induction false} OneFrameReaches(m: Msg, got: seq<Byte>, chunks: seq<seq<Byte>>)
    requires CanSend(m) && got + Flat(chunks) == Frame(m) && got != Frame(m)
    requires forall i | 0 <= i < |chunks| :: chunks[i] != []
    ensures Dispatched(got, chunks) == [m]
    decreases |chunks|
  {
    assert Flat([]) == [];
    assert |chunks| > 0;
    hide Consume, Frame, CanSend, Seen;
    var b := got + chunks[0];
    assert b + Flat(chunks[1..]) == Frame(m);
    SeenOf(m, []);
    if b == Frame(m) {
      EmptyReads(m, chunks[1..]);
      FrameIsConsumed(m);
    } else {
      PartialIsNotConsumed(m, b);
      OneFrameReaches(m, b, chunks[1..]);
    }
  }

  /** In lock step, what reaches the switch beside default messages is exactly the messages sent. */
  lemma {:induction false} LockStepReaches(ms: seq<Msg>, parts: seq<seq<seq<Byte>>>)
    requires LockStep(ms, parts)
    ensures Dispatched([], Flatten(parts)) == ms
    decreases |ms|
  {
    if |ms| > 0 {
      hide Serve, CanSend, Frame, Dispatched;
      FrameNotEmpty(ms[0]);
      assert [] + Flat(parts[0]) == Frame(ms[0]);
      OneFrame(ms[0], [], parts[0]);
      OneFrameReaches(ms[0], [], parts[0]);
      LockStepReaches(ms[1..], parts[1..]);
      DispatchedConcat([], parts[0], Flatten(parts[1..]));
    } else {
      assert Flatten(parts) == [];
    }
  }

  /** For any bytes in any reads, with no wrapped header before a malformed frame, the switch sees
      at most one message for each frame parsed and one more at each read that finds a malformed frame at the head; there is
      such a read exactly if some frame is malformed. */
  lemma {:induction false} NoneIsInvented(b: seq<Byte>, chunks: seq<seq<Byte>>)
    requires Clean(b + Flat(chunks))
    ensures |Dispatched(b, chunks)| <= |Consume(b + Flat(chunks)).msgs| + StuckReads(b, chunks)
    ensures |chunks| > 0 ==>
              (StuckReads(b, chunks) > 0 <==> exists p :: p in Drain(b + Flat(chunks)).0 && Parsed(p).None?)
    decreases |chunks|
  {
    hide Consume, Clean, Parsed, Drain, Seen, Dispatched, StuckReads;
    StuckIff(b + Flat(chunks));
    if |chunks| > 0 { StuckReadIff(b, chunks); }
    AtMostParsed(b, chunks);
  }

  lemma {:induction false} AtMostParsed(b: seq<Byte>, chunks: seq<seq<Byte>>)
    requires Clean(b + Flat(chunks))
    ensures |Dispatched(b, chunks)| <= |Consume(b + Flat(chunks)).msgs| + StuckReads(b, chunks)
    decreases |chunks|
  {
    if |chunks| > 0 {
      hide Consume, Clean, Seen;
      ReadStep(b, chunks[0], Flat(chunks[1..]));
      AtMostParsed(Consume(b + chunks[0]).rest, chunks[1..]);
    }
  }

  lemma {:induction false} StuckReadIff(b: seq<Byte>, chunks: seq<seq<Byte>>)
    requires Clean(b + Flat(chunks)) && |chunks| > 0
    ensures StuckReads(b, chunks) > 0 <==> Consume(b + Flat(chunks)).stuck
    decreases |chunks|
  {
    hide Consume, Clean;
    var rest := Consume(b + chunks[0]).rest;
    ReadStep(b, chunks[0], Flat(chunks[1..]));
    if |chunks| > 1 {
      StuckReadIff(rest, chunks[1..]);
    } else {
      assert rest + [] == rest;
      if !Consume(b + chunks[0]).stuck { NotStuckBehind(b + chunks[0]); }
    }
  }

  /** What is left of a buffer that is not stuck is not stuck either. */
  lemma NotStuckBehind(b: seq<Byte>)
    requires Clean(b) && !Consume(b).stuck
    ensures Consume(Consume(b).rest) == Drained([], Consume(b).rest, false)
  {
    hide Consume, Clean, Parsed;
    assert b + [] == b && Consume(b).rest + [] == Consume(b).rest;
    ConsumeExtends(b, []);
    ConsumeIsDrain(b);
    ConsumeFrames(Consume(b).rest);
  }

  /** While no frame is malformed, the messages that reach the switch are all those received exactly
      when no read completes two. */
  lemma {:induction false} AllParsedIff(b: seq<Byte>, chunks: seq<seq<Byte>>)
    requires Clean(b + Flat(chunks)) && !Consume(b + Flat(chunks)).stuck && !HasFrame(b)
    ensures Dispatched(b, chunks) == Consume(b + Flat(chunks)).msgs <==> OneFrameAtMost(b, chunks)
    ensures |Dispatched(b, chunks)| <= |Consume(b + Flat(chunks)).msgs|
    decreases |chunks|
  {
    if |chunks| == 0 {
      assert b + [] == b;
      ConsumeFrames(b);
    } else {
      hide Consume, HasFrame, Clean;
      var d, more := Consume(b + chunks[0]), Flat(chunks[1..]);
      ReadStep(b, chunks[0], more);
      RestHasNoFrame(b + chunks[0]);
      AllParsedIff(d.rest, chunks[1..]);
      FirstRead(d.msgs, d.rest, Dispatched(d.rest, chunks[1..]), Consume(d.rest + more).msgs);
    }
  }

  /** One read that is not stuck, before the others. */
  lemma FirstRead(msgs: seq<Msg>, rest: seq<Byte>, later: seq<Msg>, all: seq<Msg>)
    requires |later| <= |all|
    ensures var seen := (if |msgs| == 0 then [] else [Seen(Drained(msgs, rest, false))]) + later;
            && |seen| <= |msgs + all|
            && (seen == msgs + all <==> |msgs| <= 1 && later == all)
  {
    var now := if |msgs| == 0 then [] else [Latest(msgs)];
    if |msgs| <= 1 {
      assert now == msgs;
      SameHead(msgs, later, all);
    } else {
      assert |now + later| < |msgs + all|;
    }
  }

  lemma SameHead<T>(x: seq<T>, y: seq<T>, z: seq<T>)
    ensures x + y == x + z <==> y == z
  {
    assert (x + y)[|x|..] == y && (x + z)[|x|..] == z;
  }

  lemma RestHasNoFrame(b: seq<Byte>)
    requires Clean(b) && !Consume(b).stuck
    ensures !HasFrame(Consume(b).rest)
  {
    hide Consume, Clean, HasFrame, Drain;
    ConsumeIsDrain(b);
  }

  /** What a list of frames means: a message each, or none where a frame is malformed. */
  ghost function Meant(ps: seq<seq<Byte>>): (r: seq<Option<Msg>>)
    ensures |r| == |ps| && forall i | 0 <= i < |ps| :: r[i] == Parsed(ps[i])
  {
    seq(|ps|, i requires 0 <= i < |ps| => Parsed(ps[i]))
  }

  ghost function Given(ms: seq<Msg>): (r: seq<Option<Msg>>)
    ensures |r| == |ms| && forall i | 0 <= i < |ms| :: r[i] == Some(ms[i])
  {
    seq(|ms|, i requires 0 <= i < |ms| => Some(ms[i]))
  }

  /** For any bytes in any reads, with no wrapped header before a malformed frame: the switch sees
      all complete frames, each once and in order, if and only if each of them parses and no read completes two. */
  lemma NothingLostIff(b: seq<Byte>, chunks: seq<seq<Byte>>)
    requires Clean(b + Flat(chunks)) && !HasFrame(b)
    ensures var ps := Drain(b + Flat(chunks)).0;
            Given(Dispatched(b, chunks)) == Meant(ps) <==>
            (forall p | p in ps :: Parsed(p).Some?) && OneFrameAtMost(b, chunks)
  {
    hide Consume, Clean, Parsed, Drain, Dispatched, OneFrameAtMost, HasFrame;
    var all, ps, ms := b + Flat(chunks), Drain(b + Flat(chunks)).0, Dispatched(b, chunks);
    StuckIff(all);
    ConsumeIsDrain(all);
    if Consume(all).stuck {
      var p :| p in ps && Parsed(p).None?;
      var i :| 0 <= i < |ps| && ps[i] == p;
      assert Meant(ps)[i].None?;
    } else {
      AllParsedIff(b, chunks);
      assert Meant(ps) == Given(Consume(all).msgs);
      SameGiven(ms, Consume(all).msgs);
    }
  }

  lemma SameGiven(x: seq<Msg>, y: seq<Msg>)
    ensures Given(x) == Given(y) <==> x == y
  {
    if Given(x) == Given(y) {
      assert |x| == |y|;
      forall i | 0 <= i < |x| ensures x[i] == y[i] { assert Given(x)[i] == Given(y)[i]; }
    }
  }
}
