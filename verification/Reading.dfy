/** `Connection::readMessage` (src/Server/net/connection.cc): read until the socket would block, then drain. */
module Reading {
  import opened Prelude
  import opened Wire
  import opened Framing

  /** How the read loop ended: nothing more for now, closed by the peer, or an error. */
  datatype Outcome = WouldBlock | PeerClosed | ReadError

  /** One call of `readMessage`: the chunks that `read` returned, and how it ended. */
  datatype Call = Call(chunks: seq<seq<Byte>>, outcome: Outcome)

  ghost function Arrived(chunks: seq<seq<Byte>>): seq<Byte> {
    if |chunks| == 0 then [] else Arrived(chunks[..|chunks| - 1]) + chunks[|chunks| - 1]
  }

  /** What arrives in a call is everything its reads returned, one behind the other. */
  lemma {:induction false} ArrivedConcat(x: seq<seq<Byte>>, y: seq<seq<Byte>>)
    ensures Arrived(x + y) == Arrived(x) + Arrived(y)
    decreases |y|
  {
    if |y| == 0 {
      assert x + y == x;
    } else {
      assert (x + y)[..|x + y| - 1] == x + y[..|y| - 1];
      ArrivedConcat(x, y[..|y| - 1]);
    }
  }

  lemma ArrivedOne(c: seq<Byte>)
    ensures Arrived([c]) == c
  {
    assert [c][..0] == [];
  }

  class Connection {
    var buffer: seq<Byte>
    var handled: seq<seq<Byte>>  // the payloads given to the handlers, in order

    constructor ()
      ensures buffer == [] && handled == []
    {
      buffer, handled := [], [];
    }

    /** `Protocol::unpack` on this buffer. */
    method Unpack() returns (payload: Option<seq<Byte>>)
      modifies this`buffer
      ensures payload.Some? == Framing.Unpack(old(buffer)).Some?
      ensures payload.Some? ==> Framing.Unpack(old(buffer)) == Some((payload.value, buffer))
      ensures payload.None? ==> buffer == old(buffer)
    {
      if |buffer| >= 4 {
        var len := HeaderValue(buffer);
        if |buffer| < (len + 4) % TWO32 { return None; }
        payload := Some(buffer[4..Min(4 + len, |buffer|)]);
        buffer := buffer[Min((4 + len) % TWO32, |buffer|)..];
      } else {
        payload := None;
      }
    }

    method ReadMessage(chunks: seq<seq<Byte>>, outcome: Outcome) returns (ok: bool)
      requires outcome.WouldBlock? ==> Ends(buffer + Arrived(chunks))
      modifies this
      ensures ok == outcome.WouldBlock?
      ensures ok ==> handled == old(handled) + Follow(old(buffer) + Arrived(chunks)).0
      ensures ok ==> buffer == Follow(old(buffer) + Arrived(chunks)).1
      ensures !ok ==> handled == old(handled) && buffer == old(buffer) + Arrived(chunks)
    {
      for i := 0 to |chunks|
        invariant handled == old(handled)
        invariant buffer == old(buffer) + Arrived(chunks[..i])
      {
        buffer := buffer + chunks[i];
        assert chunks[..i + 1][..i] == chunks[..i];
      }
      assert chunks[..|chunks|] == chunks;
      if outcome.PeerClosed? { return false; }
      if outcome.ReadError? { return false; }
      hide Framing.Unpack, Follow, Ends, Arrived;
      ghost var goal := Follow(buffer);
      ghost var taken: seq<seq<Byte>> := [];
      assert taken + goal.0 == goal.0;
      while true
        invariant Ends(buffer) && handled == old(handled) + taken
        invariant goal == (taken + Follow(buffer).0, Follow(buffer).1)
        decreases |buffer|
      {
        FollowStep(buffer);
        var payload := Unpack();
        if payload.None? { break; }
        handled := handled + [payload.value];
        MovePayload(taken, payload.value, Follow(buffer).0);
        taken := taken + [payload.value];
      }
      assert taken + [] == taken;
      ok := true;
    }
  }

  lemma MovePayload(taken: seq<seq<Byte>>, p: seq<Byte>, rest: seq<seq<Byte>>)
    ensures taken + ([p] + rest) == taken + [p] + rest
  {
  }

  lemma FollowStep(b: seq<Byte>)
    requires Ends(b)
    ensures if Framing.Unpack(b).None? then Follow(b) == ([], b)
            else
              var (p, rest) := Framing.Unpack(b).value;
              |rest| < |b| && Ends(rest) && Follow(b) == ([p] + Follow(rest).0, Follow(rest).1)
  {
    hide Framing.Unpack;
  }

  // ---------- runs ----------

  datatype State = State(buffer: seq<Byte>, handled: seq<seq<Byte>>)

  const INITIAL := State([], [])

  /** The drain loop of a call ends. */
  ghost predicate Returns(st: State, c: Call) {
    c.outcome.WouldBlock? ==> Ends(st.buffer + Arrived(c.chunks))
  }

  /** The state after one call, as `ReadMessage` leaves it. */
  ghost function Step(st: State, c: Call): State
    requires Returns(st, c)
  {
    var b := st.buffer + Arrived(c.chunks);
    if c.outcome.WouldBlock? then State(Follow(b).1, st.handled + Follow(b).0) else State(b, st.handled)
  }

  ghost predicate AllReturn(calls: seq<Call>)
    decreases |calls|, 0
  {
    |calls| > 0 ==> AllReturn(calls[..|calls| - 1]) && Returns(Run(calls[..|calls| - 1]), calls[|calls| - 1])
  }

  ghost function Run(calls: seq<Call>): State
    requires AllReturn(calls)
    decreases |calls|, 1
  {
    if |calls| == 0 then INITIAL else Step(Run(calls[..|calls| - 1]), calls[|calls| - 1])
  }

  /** Every byte received, call after call. */
  ghost function Received(calls: seq<Call>): seq<Byte> {
    if |calls| == 0 then [] else Received(calls[..|calls| - 1]) + Arrived(calls[|calls| - 1].chunks)
  }

  /** So is what arrives in all calls. */
  lemma {:induction false} ReceivedConcat(x: seq<Call>, y: seq<Call>)
    ensures Received(x + y) == Received(x) + Received(y)
    decreases |y|
  {
    hide Arrived;
    if |y| == 0 {
      assert x + y == x;
    } else {
      assert (x + y)[..|x + y| - 1] == x + y[..|y| - 1];
      ReceivedConcat(x, y[..|y| - 1]);
    }
  }

  lemma ReceivedOne(c: Call)
    ensures Received([c]) == Arrived(c.chunks)
  {
    assert [c][..0] == [];
  }

  /** A state accounts for the bytes received: draining its buffer on top of what was handled
      is draining everything at once. */
  ghost predicate Accounts(st: State, bytes: seq<Byte>) {
    Drain(bytes) == (st.handled + Drain(st.buffer).0, Drain(st.buffer).1)
  }

  lemma StepReturns(st: State, bytes: seq<Byte>, c: Call)
    requires Accounts(st, bytes) && Sane(bytes + Arrived(c.chunks))
    ensures Sane(st.buffer + Arrived(c.chunks)) && Returns(st, c)
  {
    hide Drain, Arrived, Sane, Follow;
    DrainExtends(bytes, Arrived(c.chunks));
    DrainExtends(st.buffer, Arrived(c.chunks));
    FollowsIff(st.buffer + Arrived(c.chunks));
  }

  lemma StepAccounts(st: State, bytes: seq<Byte>, c: Call)
    requires Accounts(st, bytes) && Sane(bytes + Arrived(c.chunks))
    ensures Returns(st, c) && Accounts(Step(st, c), bytes + Arrived(c.chunks))
  {
    hide Drain, Arrived, Sane, Follow;
    StepReturns(st, bytes, c);
    var more := Arrived(c.chunks);
    FollowsIff(st.buffer + more);
    DrainExtends(bytes, more);
    DrainExtends(st.buffer, more);
    var d, rest := Drain(st.buffer + more), Drain(Drain(st.buffer).1 + more);
    DrainTwice(st.buffer + more);
    assert d.1 + [] == d.1;
    MovePayloads(st.handled, Drain(st.buffer).0, rest.0);
    MovePayloads(st.handled, d.0, []);
  }

  lemma MovePayloads(x: seq<seq<Byte>>, y: seq<seq<Byte>>, z: seq<seq<Byte>>)
    ensures x + (y + z) == (x + y) + z && x + [] == x && y + [] == y
  {
  }

  /** While no header received wraps around, every call returns and no byte is lost or handled twice. */
  lemma {:induction false} RunAccounts(calls: seq<Call>)
    requires Sane(Received(calls))
    ensures AllReturn(calls) && Accounts(Run(calls), Received(calls))
    decreases |calls|
  {
    hide Sane, Returns, Step, Arrived;
    if |calls| == 0 {
      assert INITIAL.handled + Drain([]).0 == [];
    } else {
      hide Accounts;
      var before := calls[..|calls| - 1];
      SanePrefix(Received(before), Arrived(calls[|calls| - 1].chunks));
      RunAccounts(before);
      StepAccounts(Run(before), Received(before), calls[|calls| - 1]);
    }
  }

  /** Over any run on the bytes of a sender every call returns; what was handled is a prefix of what
      was sent, and no byte is lost; after a call that returns true, exactly the complete frames were
      handled and the buffer holds a proper prefix of the next one. */
  lemma {:induction false} HandledInOrder(ps: seq<seq<Byte>>, calls: seq<Call>)
    requires Sendable(ps) && Received(calls) <= Stream(ps)
    ensures AllReturn(calls)
    ensures Run(calls).handled <= ps
    ensures Stream(Run(calls).handled) + Run(calls).buffer == Received(calls)
    ensures |calls| > 0 && calls[|calls| - 1].outcome.WouldBlock? ==>
              Framing.Received(ps, Received(calls), Run(calls).handled, Run(calls).buffer)
  {
    hide Drain, Received, Stream, Sane, Arrived, Pack, Run, AllReturn;
    DrainPrefix(ps, Received(calls));
    RunAccounts(calls);
    var st, bytes := Run(calls), Received(calls);
    var d := Drain(st.buffer);
    StreamConcat(st.handled, d.0);
    DrainRestores(st.buffer);
    assert st.handled <= st.handled + d.0 <= ps;
    assert Stream(st.handled) + (Stream(d.0) + d.1) == (Stream(st.handled) + Stream(d.0)) + d.1;
    if |calls| > 0 && calls[|calls| - 1].outcome.WouldBlock? {
      NothingLeft(calls);
      assert st.handled + [] == st.handled;
    }
  }

  /** So the precondition of the next `ReadMessage` always holds, whatever cut it comes in. */
  lemma NextCallEnds(ps: seq<seq<Byte>>, calls: seq<Call>, c: Call)
    requires Sendable(ps) && Received(calls + [c]) <= Stream(ps)
    ensures AllReturn(calls) && Ends(Run(calls).buffer + Arrived(c.chunks))
  {
    hide Sane, Arrived, Ends, Run;
    DrainPrefix(ps, Received(calls + [c]));
    assert (calls + [c])[..|calls|] == calls;
    SanePrefix(Received(calls), Arrived(c.chunks));
    RunAccounts(calls);
    StepReturns(Run(calls), Received(calls), c);
    FollowsIff(Run(calls).buffer + Arrived(c.chunks));
  }

  /** After a call that returns true the buffer holds no complete frame. */
  lemma NothingLeft(calls: seq<Call>)
    requires Sane(Received(calls)) && AllReturn(calls) && |calls| > 0 && calls[|calls| - 1].outcome.WouldBlock?
    ensures Drain(Run(calls).buffer) == ([], Run(calls).buffer)
  {
    hide Drain, Arrived, Sane, Follow, Accounts;
    var before, c := calls[..|calls| - 1], calls[|calls| - 1];
    SanePrefix(Received(before), Arrived(c.chunks));
    RunAccounts(before);
    StepReturns(Run(before), Received(before), c);
    FollowsIff(Run(before).buffer + Arrived(c.chunks));
    DrainTwice(Run(before).buffer + Arrived(c.chunks));
  }
}
