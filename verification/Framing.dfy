/**
  Length-prefixed frames: `Protocol::pack` and `Protocol::unpack` (src/tools/protocol.cc) with
  their 32-bit arithmetic, and the buffer that `Connection::readMessage`
  (src/Server/net/connection.cc) grows and drains.
*/
module Framing {
  import opened Prelude
  import opened Wire

  /** From this length on, `len + 4` wraps around in 32 bits. */
  const LIMIT := TWO32 - 4

  function BigEndian(n: nat): (b: seq<Byte>)
    requires n < TWO32
    ensures |b| == 4
  {
    [n / 256 / 256 / 256, n / 256 / 256 % 256, n / 256 % 256, n % 256]
  }

  function HeaderValue(b: seq<Byte>): (n: nat)
    requires |b| >= 4
    ensures n < TWO32
  {
    ((b[0] as int * 256 + b[1] as int) * 256 + b[2] as int) * 256 + b[3] as int
  }

  lemma HeaderRoundTrip(n: nat, rest: seq<Byte>)
    requires n < TWO32
    ensures HeaderValue(BigEndian(n) + rest) == n
  {
  }

  /** `pack`: the size, cut to 32 bits, then the payload. */
  function Pack(p: seq<Byte>): seq<Byte> {
    BigEndian(|p| % TWO32) + p
  }

  function Min(a: nat, b: nat): nat {
    if a < b then a else b
  }

  /** Network byte order: each byte weighs 256 times as much as the next. */
  function NetworkOrder(b: seq<Byte>): nat {
    if |b| == 0 then 0 else NetworkOrder(b[..|b| - 1]) * 256 + b[|b| - 1]
  }

  lemma HeaderOrder(b: seq<Byte>)
    requires |b| >= 4
    ensures HeaderValue(b) == NetworkOrder(b[..4])
  {
    var h := b[..4];
    assert h[..3][..2] == h[..2] && h[..2][..1] == h[..1] && h[..1][..0] == [];
    assert NetworkOrder(h[..1]) == h[0];
    assert NetworkOrder(h[..2]) == h[0] as int * 256 + h[1] as int;
    assert NetworkOrder(h[..3]) == (h[0] as int * 256 + h[1] as int) * 256 + h[2] as int;
  }

  /** A frame is four bytes with the payload's size in network byte order, cut to 32 bits, and the payload. */
  lemma PackLayout(p: seq<Byte>)
    ensures |Pack(p)| == 4 + |p| && Pack(p)[4..] == p
    ensures NetworkOrder(Pack(p)[..4]) == |p| % TWO32
  {
    var len := |p| % TWO32;
    HeaderRoundTrip(len, p);
    HeaderOrder(Pack(p));
  }

  /** `unpack`: the payload and the buffer left, or nothing when the frame is not complete.
      `len + 4` is computed in 32 bits; `substr` and `erase` stop at the end of the buffer. */
  function Unpack(buffer: seq<Byte>): Option<(seq<Byte>, seq<Byte>)> {
    if |buffer| < 4 then None
    else
      var len := HeaderValue(buffer);
      var total := (len + 4) % TWO32;
      if |buffer| < total then None
      else Some((buffer[4..Min(4 + len, |buffer|)], buffer[Min(total, |buffer|)..]))
  }

  /** `unpack` gives back exactly what was packed when, and only when, the payload is below the wrap-around. */
  lemma UnpackUndoesPack(p: seq<Byte>, rest: seq<Byte>)
    ensures Unpack(Pack(p) + rest) == Some((p, rest)) <==> |p| < LIMIT
  {
    var b := Pack(p) + rest;
    var len := |p| % TWO32;
    assert b == BigEndian(len) + (p + rest);
    HeaderRoundTrip(len, p + rest);
    if |p| < LIMIT {
      assert len == |p|;
      assert b[4..4 + len] == p;
      assert b[4 + len..] == rest;
    } else if |p| < TWO32 {
      assert Unpack(b).value.1 == b[(len + 4) % TWO32..];
    } else {
      assert Unpack(b).Some? ==> |Unpack(b).value.0| <= len;
    }
  }

  lemma WrappedTotal(len: nat)
    requires len < TWO32
    ensures (len + 4) % TWO32 == if len < LIMIT then len + 4 else len - LIMIT
  {
  }

  /** Each success makes the buffer shorter, except at one length: 2^32 - 4, where nothing is removed. */
  lemma UnpackShrinksIff(b: seq<Byte>)
    requires Unpack(b).Some?
    ensures |Unpack(b).value.1| < |b| <==> HeaderValue(b) != LIMIT
    ensures HeaderValue(b) == LIMIT ==> Unpack(b).value.1 == b
  {
    WrappedTotal(HeaderValue(b));
    hide HeaderValue;
  }

  /** Beyond that length a frame is always reported, with as much as there is behind the header as
      its payload, and one to three bytes are removed. */
  lemma WrappedHeader(b: seq<Byte>)
    requires |b| >= 4 && HeaderValue(b) > LIMIT
    ensures 1 <= HeaderValue(b) - LIMIT <= 3
    ensures Unpack(b) == Some((b[4..Min(4 + HeaderValue(b), |b|)], b[HeaderValue(b) - LIMIT..]))
  {
    WrappedTotal(HeaderValue(b));
    hide HeaderValue;
  }

  /** So what is handed over then is not a function of the stream: it depends on how much of it had
      arrived when `unpack` looked. */
  lemma WrappedPayloadVaries(b: seq<Byte>, more: seq<Byte>)
    requires |b| == 4 && HeaderValue(b) > LIMIT && |more| <= LIMIT
    ensures Unpack(b).Some? && Unpack(b).value.0 == []
    ensures Unpack(b + more).Some? && Unpack(b + more).value.0 == more
  {
    assert HeaderValue(b + more) == HeaderValue(b);
    WrappedHeader(b);
    WrappedHeader(b + more);
    assert (b + more)[4..] == more;
  }

  // ---------- the drain loop ----------

  /** The loop over `unpack` ends on this buffer. */
  ghost predicate Ends(b: seq<Byte>)
    decreases |b|
  {
    Unpack(b).Some? ==> |Unpack(b).value.1| < |b| && Ends(Unpack(b).value.1)
  }

  lemma EndsStep(b: seq<Byte>)
    requires Unpack(b).Some?
    ensures Ends(b) <==> |Unpack(b).value.1| < |b| && Ends(Unpack(b).value.1)
  {
    hide Unpack;
  }

  /** What the loop hands over, and what it leaves. */
  ghost function Follow(b: seq<Byte>): (seq<seq<Byte>>, seq<Byte>)
    requires Ends(b)
    decreases |b|
  {
    if Unpack(b).None? then ([], b)
    else
      var (p, rest) := Unpack(b).value;
      var (ps, last) := Follow(rest);
      ([p] + ps, last)
  }

  /** After n turns of the loop `unpack` reports nothing. */
  ghost predicate StopsAfter(b: seq<Byte>, n: nat) {
    if Unpack(b).None? then n == 0 else n > 0 && StopsAfter(Unpack(b).value.1, n - 1)
  }

  lemma {:induction false} TurnsUntilEnd(b: seq<Byte>) returns (n: nat)
    requires Ends(b)
    ensures StopsAfter(b, n)
    decreases |b|
  {
    hide Unpack;
    if Unpack(b).None? {
      n := 0;
    } else {
      n := TurnsUntilEnd(Unpack(b).value.1);
      n := n + 1;
    }
  }

  lemma {:induction false} StoppedEnds(b: seq<Byte>, n: nat)
    requires StopsAfter(b, n)
    ensures Ends(b)
    decreases n
  {
    hide Unpack;
    if Unpack(b).Some? {
      EndsStep(b);
      UnpackShorter(b);
      StoppedEnds(Unpack(b).value.1, n - 1);
      if Unpack(b).value.1 == b { NeverStops(b, n); }
    }
  }

  /** `Ends` is the termination of the loop: after some number of turns it stops. */
  lemma EndsIff(b: seq<Byte>)
    ensures Ends(b) <==> exists n: nat :: StopsAfter(b, n)
  {
    hide StopsAfter, Ends;
    if Ends(b) { var n := TurnsUntilEnd(b); }
    forall n: nat | StopsAfter(b, n) ensures Ends(b) { StoppedEnds(b, n); }
  }

  lemma UnpackShorter(b: seq<Byte>)
    requires Unpack(b).Some?
    ensures |Unpack(b).value.1| <= |b| && (|Unpack(b).value.1| == |b| ==> Unpack(b).value.1 == b)
  {
  }

  lemma {:induction false} NeverStops(b: seq<Byte>, n: nat)
    requires Unpack(b).Some? && Unpack(b).value.1 == b
    ensures !StopsAfter(b, n)
  {
    hide Unpack;
    if n > 0 { NeverStops(b, n - 1); }
  }

  // ---------- draining ----------

  ghost predicate HasFrame(b: seq<Byte>) {
    |b| >= 4 && HeaderValue(b) < LIMIT && |b| >= 4 + HeaderValue(b)
  }

  function Payload(b: seq<Byte>): seq<Byte>
    requires HasFrame(b)
  {
    b[4..4 + HeaderValue(b)]
  }

  function After(b: seq<Byte>): seq<Byte>
    requires HasFrame(b)
  {
    b[4 + HeaderValue(b)..]
  }

  /** No header along the buffer reaches the wrap-around. */
  ghost predicate Sane(b: seq<Byte>)
    decreases |b|
  {
    |b| >= 4 ==> HeaderValue(b) < LIMIT && (HasFrame(b) ==> Sane(After(b)))
  }

  /** The payloads of the complete frames of a buffer, and what is left behind them. */
  ghost function Drain(b: seq<Byte>): (r: (seq<seq<Byte>>, seq<Byte>))
    ensures !HasFrame(r.1)
    decreases |b|
  {
    if HasFrame(b) then
      var (ps, rest) := Drain(After(b));
      ([Payload(b)] + ps, rest)
    else ([], b)
  }

  /** What draining leaves is drained. */
  lemma DrainTwice(b: seq<Byte>)
    ensures Drain(Drain(b).1) == ([], Drain(b).1)
  {
  }

  lemma UnpackIsFrame(b: seq<Byte>)
    requires |b| >= 4 ==> HeaderValue(b) < LIMIT
    ensures Unpack(b) == if HasFrame(b) then Some((Payload(b), After(b))) else None
  {
  }

  /** The loop ends and hands over exactly the complete frames if and only if it meets no header that
      wraps around. */
  lemma {:induction false} FollowsIff(b: seq<Byte>)
    ensures Sane(b) <==> Ends(b) && Follow(b) == Drain(b)
    decreases |b|
  {
    if |b| >= 4 && HeaderValue(b) >= LIMIT {
      WrappedSucceeds(b);
      hide Unpack;
    } else {
      UnpackIsFrame(b);
      hide Unpack, HeaderValue, Payload, After, Drain;
      DrainStep(b);
      if HasFrame(b) {
        EndsStep(b);
        FollowsIff(After(b));
        if Ends(After(b)) { SameRest(Payload(b), Follow(After(b)).0, Drain(After(b)).0); }
      }
    }
  }

  lemma SameRest(p: seq<Byte>, x: seq<seq<Byte>>, y: seq<seq<Byte>>)
    ensures [p] + x == [p] + y <==> x == y
  {
    assert ([p] + x)[1..] == x && ([p] + y)[1..] == y;
  }

  lemma WrappedSucceeds(b: seq<Byte>)
    requires |b| >= 4 && HeaderValue(b) >= LIMIT
    ensures Unpack(b).Some?
  {
    WrappedTotal(HeaderValue(b));
  }

  lemma {:induction false} SanePrefix(b: seq<Byte>, more: seq<Byte>)
    requires Sane(b + more)
    ensures Sane(b)
    decreases |b|
  {
    if |b| >= 4 { assert HeaderValue(b + more) == HeaderValue(b); }
    if HasFrame(b) {
      FrameExtends(b, more);
      SanePrefix(After(b), more);
    }
  }

  lemma FrameExtends(b: seq<Byte>, more: seq<Byte>)
    requires HasFrame(b)
    ensures HasFrame(b + more) && Payload(b + more) == Payload(b) && After(b + more) == After(b) + more
  {
  }

  lemma DrainStep(b: seq<Byte>)
    ensures HasFrame(b) ==>
              && |After(b)| < |b|
              && Drain(b) == ([Payload(b)] + Drain(After(b)).0, Drain(After(b)).1)
              && (Sane(b) <==> Sane(After(b)))
    ensures !HasFrame(b) ==> Drain(b) == ([], b)
  {
  }

  /** Draining early and draining late agree: bytes that come later are drained behind the rest. */
  lemma {:induction false} DrainExtends(b: seq<Byte>, more: seq<Byte>)
    ensures Drain(b + more) == (Drain(b).0 + Drain(Drain(b).1 + more).0, Drain(Drain(b).1 + more).1)
    ensures Sane(b + more) <==> Sane(Drain(b).1 + more)
    decreases |b|
  {
    hide HasFrame, Payload, After, Drain, Sane;
    DrainStep(b);
    if HasFrame(b) {
      FrameExtends(b, more);
      DrainStep(b + more);
      DrainExtends(After(b), more);
      assert [Payload(b)] + (Drain(After(b)).0 + Drain(Drain(b).1 + more).0)
          == ([Payload(b)] + Drain(After(b)).0) + Drain(Drain(b).1 + more).0;
    } else {
      assert [] + Drain(b + more).0 == Drain(b + more).0;
    }
  }

  /** The bytes a sender puts on the wire for a list of payloads. */
  ghost function Stream(ps: seq<seq<Byte>>): seq<Byte> {
    if |ps| == 0 then [] else Pack(ps[0]) + Stream(ps[1..])
  }

  ghost predicate Sendable(ps: seq<seq<Byte>>) {
    forall i | 0 <= i < |ps| :: |ps[i]| < LIMIT
  }

  lemma PackedFrame(p: seq<Byte>, rest: seq<Byte>)
    requires |p| < LIMIT
    ensures HasFrame(Pack(p) + rest) && Payload(Pack(p) + rest) == p && After(Pack(p) + rest) == rest
  {
    hide BigEndian, HeaderValue;
    assert Pack(p) + rest == BigEndian(|p|) + (p + rest);
    HeaderRoundTrip(|p|, p + rest);
  }

  /** A proper prefix of a frame is not a frame, and its header, if complete, is sane. */
  lemma PartialFrame(p: seq<Byte>, b: seq<Byte>)
    requires |p| < LIMIT && b < Pack(p)
    ensures !HasFrame(b) && Sane(b)
  {
    hide BigEndian, HeaderValue;
    if |b| >= 4 {
      assert b[..4] == Pack(p)[..4] == BigEndian(|p|);
      assert b == BigEndian(|p|) + b[4..];
      HeaderRoundTrip(|p|, b[4..]);
    }
  }

  /** The frames fs and the rest are what b holds of the stream of ps. */
  ghost predicate Received(ps: seq<seq<Byte>>, b: seq<Byte>, fs: seq<seq<Byte>>, rest: seq<Byte>) {
    && fs <= ps && Stream(fs) + rest == b
    && (if |fs| == |ps| then rest == [] else rest < Pack(ps[|fs|]))
  }

  lemma ReceivedCons(p: seq<Byte>, ps: seq<seq<Byte>>, b: seq<Byte>, fs: seq<seq<Byte>>, rest: seq<Byte>)
    requires Received(ps, b, fs, rest)
    ensures Received([p] + ps, Pack(p) + b, [p] + fs, rest)
  {
    assert ([p] + fs)[1..] == fs;
    hide Pack;
    assert Pack(p) + Stream(fs) + rest == Pack(p) + (Stream(fs) + rest);
  }

  lemma DrainFrame(p: seq<Byte>, rest: seq<Byte>)
    requires |p| < LIMIT && Sane(rest)
    ensures Sane(Pack(p) + rest)
    ensures Drain(Pack(p) + rest) == ([p] + Drain(rest).0, Drain(rest).1)
  {
    PackedFrame(p, rest);
  }

  lemma SplitPrefix(a: seq<Byte>, s: seq<Byte>, b: seq<Byte>) returns (rest: seq<Byte>)
    requires b <= a + s && |a| <= |b|
    ensures b == a + rest && rest <= s
  {
    rest := b[|a|..];
    assert b[..|a|] == (a + s)[..|a|] == a;
    assert rest == (a + s)[|a|..|b|] == s[..|rest|];
  }

  /** Whatever prefix of a stream has arrived: its complete frames are the first payloads sent,
      and what is left is a proper prefix of the next frame. */
  lemma {:induction false} DrainPrefix(ps: seq<seq<Byte>>, b: seq<Byte>)
    requires Sendable(ps) && b <= Stream(ps)
    ensures Sane(b) && Received(ps, b, Drain(b).0, Drain(b).1)
    decreases |ps|
  {
    if |ps| == 0 {
    } else if |b| < |Pack(ps[0])| {
      assert b < Pack(ps[0]) by { assert b == Stream(ps)[..|b|] == Pack(ps[0])[..|b|]; }
      PartialFrame(ps[0], b);
      assert Stream([]) + b == b;
    } else {
      hide Drain, Sane, Pack, Received;
      var rest := SplitPrefix(Pack(ps[0]), Stream(ps[1..]), b);
      DrainPrefix(ps[1..], rest);
      DrainFrame(ps[0], rest);
      ReceivedCons(ps[0], ps[1..], rest, Drain(rest).0, Drain(rest).1);
      assert [ps[0]] + ps[1..] == ps;
    }
  }

  lemma {:induction false} StreamConcat(x: seq<seq<Byte>>, y: seq<seq<Byte>>)
    ensures Stream(x + y) == Stream(x) + Stream(y)
    decreases |x|
  {
    if |x| == 0 {
      assert x + y == y;
    } else {
      assert (x + y)[1..] == x[1..] + y;
      StreamConcat(x[1..], y);
    }
  }

  /** A frame is what packing its payload gives. */
  lemma Repacked(b: seq<Byte>)
    requires HasFrame(b)
    ensures Pack(Payload(b)) + After(b) == b
  {
    hide BigEndian;
    var len := HeaderValue(b);
    HeaderDigits(b[0], b[1], b[2], b[3]);
    assert BigEndian(len) == b[..4];
    hide HeaderValue;
    assert b == b[..4] + b[4..4 + len] + b[4 + len..];
  }

  lemma HeaderDigits(a: int, b: int, c: int, d: int)
    requires 0 <= a < 256 && 0 <= b < 256 && 0 <= c < 256 && 0 <= d < 256
    ensures BigEndian(((a * 256 + b) * 256 + c) * 256 + d) == [a, b, c, d]
  {
    Digit(a, b);
    Digit(a * 256 + b, c);
    Digit((a * 256 + b) * 256 + c, d);
  }

  lemma Digit(q: nat, r: nat)
    requires r < 256
    ensures (q * 256 + r) / 256 == q && (q * 256 + r) % 256 == r
  {
  }

  /** Packing the drained payloads again gives back the bytes they came from. */
  lemma {:induction false} DrainRestores(b: seq<Byte>)
    ensures Stream(Drain(b).0) + Drain(b).1 == b
    decreases |b|
  {
    if HasFrame(b) {
      Repacked(b);
      DrainRestores(After(b));
      StreamFirst(Payload(b), Drain(After(b)).0, Drain(b).1);
      hide Pack, HasFrame, Payload, After, Stream;
    }
  }

  lemma StreamFirst(p: seq<Byte>, ps: seq<seq<Byte>>, rest: seq<Byte>)
    ensures Stream([p] + ps) + rest == Pack(p) + (Stream(ps) + rest)
  {
    assert ([p] + ps)[1..] == ps;
    hide Pack;
  }
}
