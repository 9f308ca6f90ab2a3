/**
  The record layer of the Protocol Buffers encoding ("Base 128 Varints", "Message Structure",
  "Length-Delimited Records", "Groups"): what the generated parsers and printers of
  Proto/user_auth.pb.cc take from the protobuf runtime, which is not part of the repository.
*/
module Wire {
  import opened Prelude

  const TWO29 := 0x2000_0000
  const TWO32 := 0x1_0000_0000
  const TWO64 := 0x1_0000_0000_0000_0000
  /** The largest record or message the format allows: less than 2 GiB. */
  const MAX_SIZE := 0x7FFF_FFFF

  /** One record: a field number with the payload of its wire type. */
  datatype Record =
    | Varint(num: nat, v: nat)
    | Fixed64(num: nat, b: seq<Byte>)
    | Len(num: nat, b: seq<Byte>)
    | Group(num: nat, rs: seq<Record>)
    | Fixed32(num: nat, b: seq<Byte>)

  function WireType(r: Record): nat {
    match r
    case Varint(_, _) => 0
    case Fixed64(_, _) => 1
    case Len(_, _) => 2
    case Group(_, _) => 3
    case Fixed32(_, _) => 5
  }

  function TagOf(r: Record): nat {
    r.num * 8 + WireType(r)
  }

  /** What every record read from a buffer satisfies. */
  ghost predicate ValidRecord(r: Record)
    decreases r
  {
    1 <= r.num < TWO29 &&
    match r
    case Varint(_, v) => v < TWO64
    case Fixed64(_, b) => |b| == 8
    case Len(_, b) => |b| <= MAX_SIZE
    case Group(_, rs) => ValidRecords(rs)
    case Fixed32(_, b) => |b| == 4
  }

  ghost predicate ValidRecords(rs: seq<Record>)
    decreases rs
  {
    forall i | 0 <= i < |rs| :: ValidRecord(rs[i])
  }

  // ---------- varints ----------

  function VarintBytes(v: nat): (b: seq<Byte>)
    ensures |b| >= 1
  {
    if v < 128 then [v] else [v % 128 + 128] + VarintBytes(v / 128)
  }

  /** The number of bytes `VarintBytes` writes, as the size calculators count it. */
  function VarintSize(v: nat): nat {
    if v < 128 then 1 else 1 + VarintSize(v / 128)
  }

  /** Reads one varint of at most `limit` bytes; the result is the value and the bytes consumed. */
  function ReadVarint(b: seq<Byte>, limit: nat): (r: Option<(nat, nat)>)
    ensures r.Some? ==> 1 <= r.value.1 <= |b| && r.value.1 <= limit
  {
    if |b| == 0 || limit == 0 then None
    else if b[0] < 128 then Some((b[0], 1))
    else
      var r :- ReadVarint(b[1..], limit - 1);
      Some((b[0] - 128 + 128 * r.0, 1 + r.1))
  }

  function Pow128(n: nat): nat {
    if n == 0 then 1 else 128 * Pow128(n - 1)
  }

  lemma {:induction false} VarintRoundTrip(v: nat, limit: nat, rest: seq<Byte>)
    requires limit > 0 && v < Pow128(limit)
    ensures ReadVarint(VarintBytes(v) + rest, limit) == Some((v, |VarintBytes(v)|))
    decreases v
  {
    var b := VarintBytes(v) + rest;
    if v >= 128 {
      assert Pow128(limit) == 128 * Pow128(limit - 1);
      assert b[1..] == VarintBytes(v / 128) + rest;
      VarintRoundTrip(v / 128, limit - 1, rest);
    }
  }

  /** What a varint is: every byte but the last has its high bit set, and the low seven bits weigh
      128 times as much from byte to byte. */
  predicate IsVarint(b: seq<Byte>) {
    |b| > 0 && b[|b| - 1] < 128 && forall i | 0 <= i < |b| - 1 :: b[i] >= 128
  }

  function Weight(b: seq<Byte>): nat {
    if |b| == 0 then 0 else b[0] % 128 + 128 * Weight(b[1..])
  }

  lemma LowSeven(v: nat)
    ensures (v % 128 + 128) % 128 == v % 128 && v % 128 + 128 * (v / 128) == v
  {
  }

  lemma VarintCons(x: Byte, rest: seq<Byte>)
    requires x >= 128
    ensures IsVarint([x] + rest) <==> IsVarint(rest)
    ensures Weight([x] + rest) == x % 128 + 128 * Weight(rest)
  {
    var b := [x] + rest;
    assert b[1..] == rest;
    assert forall i | 0 <= i < |rest| :: rest[i] == b[i + 1];
    hide Weight;
    if |rest| > 0 && IsVarint(rest) {
      assert forall i | 1 <= i < |b| :: b[i] == rest[i - 1];
    }
  }

  /** What is written for a number is the shortest varint of that weight. */
  lemma {:induction false} VarintShape(v: nat)
    ensures IsVarint(VarintBytes(v)) && Weight(VarintBytes(v)) == v
    ensures |VarintBytes(v)| > 1 ==> VarintBytes(v)[|VarintBytes(v)| - 1] != 0
    decreases v
  {
    if v >= 128 {
      hide IsVarint, Weight;
      LowSeven(v);
      VarintShape(v / 128);
      VarintCons(v % 128 + 128, VarintBytes(v / 128));
    } else {
      assert [v][1..] == [];
    }
  }

  /** What is read is a varint in front and its weight; nothing is read exactly if there is none
      within the limit. */
  lemma {:induction false} ReadVarintShape(b: seq<Byte>, limit: nat)
    ensures var r := ReadVarint(b, limit);
            && (r.Some? ==> IsVarint(b[..r.value.1]) && Weight(b[..r.value.1]) == r.value.0)
            && (r.None? <==> forall i | 0 <= i < limit && i < |b| :: b[i] >= 128)
    decreases limit
  {
    if |b| > 0 && limit > 0 {
      if b[0] < 128 {
        assert b[..1] == [b[0]] && b[..1][1..] == [];
      } else {
        var rest := b[1..];
        ReadVarintShape(rest, limit - 1);
        var r := ReadVarint(rest, limit - 1);
        if r.Some? {
          VarintCons(b[0], rest[..r.value.1]);
          assert b[..1 + r.value.1] == [b[0]] + rest[..r.value.1];
        }
        hide IsVarint, Weight;
        assert forall i | 1 <= i < |b| :: b[i] == rest[i - 1];
        assert forall i | 0 <= i < |rest| :: rest[i] == b[i + 1];
      }
    }
  }

  lemma {:induction false} VarintLength(v: nat)
    ensures |VarintBytes(v)| == VarintSize(v)
    decreases v
  {
    if v >= 128 { VarintLength(v / 128); }
  }

  lemma {:induction false} VarintLengthBound(v: nat, n: nat)
    requires n > 0 && v < Pow128(n)
    ensures VarintSize(v) <= n
    decreases n
  {
    if v >= 128 {
      assert Pow128(n) == 128 * Pow128(n - 1);
      VarintLengthBound(v / 128, n - 1);
    }
  }

  lemma Powers()
    ensures TWO32 < Pow128(5) && TWO64 < Pow128(10)
  {
    assert Pow128(3) == 0x20_0000;
    assert Pow128(5) == 0x8_0000_0000;
    assert Pow128(7) == 0x2_0000_0000_0000;
    assert Pow128(9) == 0x8000_0000_0000_0000;
  }

  // ---------- reading records ----------

  /** A tag: at most five bytes, of which the low 32 bits count. */
  function ReadTag(b: seq<Byte>): (r: Option<(nat, nat)>)
    ensures r.Some? ==> 0 < r.value.1 <= |b| && r.value.0 < TWO32
  {
    var r :- ReadVarint(b, 5);
    Some((r.0 % TWO32, r.1))
  }

  /** A 64-bit varint; bits beyond the 64th are dropped. */
  function ReadVarint64(b: seq<Byte>): (r: Option<(nat, nat)>)
    ensures r.Some? ==> 0 < r.value.1 <= |b| && r.value.0 < TWO64
  {
    var r :- ReadVarint(b, 10);
    Some((r.0 % TWO64, r.1))
  }

  /** A length prefix and that many bytes; the result is the bytes and what follows them. */
  function ReadBytes(b: seq<Byte>): (r: Option<(seq<Byte>, seq<Byte>)>)
    ensures r.Some? ==> |r.value.0| <= MAX_SIZE && |r.value.1| < |b|
  {
    var r :- ReadVarint(b, 5);
    if r.0 > MAX_SIZE || r.1 + r.0 > |b| then None
    else Some((b[r.1..r.1 + r.0], b[r.1 + r.0..]))
  }

  function ReadFixed(b: seq<Byte>, n: nat): Option<(seq<Byte>, seq<Byte>)> {
    if |b| < n then None else Some((b[..n], b[n..]))
  }

  /** The rest of a record once its tag is read: the record and the bytes after it. */
  function ReadField(tag: nat, b: seq<Byte>): (r: Option<(Record, seq<Byte>)>)
    ensures r.Some? ==> |r.value.1| <= |b| && TagOf(r.value.0) == tag
    decreases |b|, 1
  {
    var num := tag / 8;
    if num == 0 then None
    else if tag % 8 == 0 then
      var r :- ReadVarint64(b);
      Some((Varint(num, r.0), b[r.1..]))
    else if tag % 8 == 1 then
      var r :- ReadFixed(b, 8);
      Some((Fixed64(num, r.0), r.1))
    else if tag % 8 == 2 then
      var r :- ReadBytes(b);
      Some((Len(num, r.0), r.1))
    else if tag % 8 == 3 then
      var r :- ReadGroup(num, b);
      Some((Group(num, r.0), r.1))
    else if tag % 8 == 5 then
      var r :- ReadFixed(b, 4);
      Some((Fixed32(num, r.0), r.1))
    else None
  }

  /** The records of a group up to the end tag that carries the group's own number. */
  function ReadGroup(num: nat, b: seq<Byte>): (r: Option<(seq<Record>, seq<Byte>)>)
    ensures r.Some? ==> |r.value.1| <= |b|
    decreases |b|, 0
  {
    var t :- ReadTag(b);
    if t.0 % 8 == 4 then
      if t.0 / 8 == num then Some(([], b[t.1..])) else None
    else
      var r :- ReadField(t.0, b[t.1..]);
      var rest :- ReadGroup(num, r.1);
      Some(([r.0] + rest.0, rest.1))
  }

  function ReadRecord(b: seq<Byte>): (r: Option<(Record, seq<Byte>)>)
    ensures r.Some? ==> |r.value.1| < |b|
  {
    var t :- ReadTag(b);
    ReadField(t.0, b[t.1..])
  }

  lemma ReadVarintField(tag: nat, b: seq<Byte>)
    requires tag >= 8 && tag % 8 == 0
    ensures ReadField(tag, b) ==
            if ReadVarint64(b).None? then None
            else Some((Varint(tag / 8, ReadVarint64(b).value.0), b[ReadVarint64(b).value.1..]))
  {
  }

  lemma ReadLenField(tag: nat, b: seq<Byte>)
    requires tag >= 8 && tag % 8 == 2
    ensures ReadField(tag, b) ==
            if ReadBytes(b).None? then None
            else Some((Len(tag / 8, ReadBytes(b).value.0), ReadBytes(b).value.1))
  {
  }

  /** The records of a whole buffer; a stray end-group tag or tag 0 makes the parse fail. */
  function ParseRecords(b: seq<Byte>): Option<seq<Record>>
    decreases |b|
  {
    if |b| == 0 then Some([])
    else
      var r :- ReadRecord(b);
      var rest :- ParseRecords(r.1);
      Some([r.0] + rest)
  }

  lemma {:induction false} ReadFieldValid(tag: nat, b: seq<Byte>)
    requires tag < TWO32
    ensures ReadField(tag, b).Some? ==> ValidRecord(ReadField(tag, b).value.0)
    decreases |b|, 1
  {
    if tag / 8 > 0 && tag % 8 == 3 { ReadGroupValid(tag / 8, b); }
  }

  lemma {:induction false} ReadGroupValid(num: nat, b: seq<Byte>)
    ensures ReadGroup(num, b).Some? ==> ValidRecords(ReadGroup(num, b).value.0)
    decreases |b|, 0
  {
    var t := ReadTag(b);
    if t.Some? && t.value.0 % 8 != 4 {
      ReadFieldValid(t.value.0, b[t.value.1..]);
      var r := ReadField(t.value.0, b[t.value.1..]);
      if r.Some? { ReadGroupValid(num, r.value.1); }
    }
  }

  lemma ReadRecordValid(b: seq<Byte>)
    ensures ReadRecord(b).Some? ==> ValidRecord(ReadRecord(b).value.0)
  {
    var t := ReadTag(b);
    if t.Some? { ReadFieldValid(t.value.0, b[t.value.1..]); }
  }

  lemma {:induction false} ParsedValid(b: seq<Byte>)
    ensures ParseRecords(b).Some? ==> ValidRecords(ParseRecords(b).value)
    decreases |b|
  {
    if |b| > 0 && ReadRecord(b).Some? {
      ReadRecordValid(b);
      ParsedValid(ReadRecord(b).value.1);
    }
  }

  // ---------- writing records ----------

  function TagBytes(num: nat, wireType: nat): seq<Byte> {
    VarintBytes(num * 8 + wireType)
  }

  function EncodeRecord(r: Record): seq<Byte>
    decreases r
  {
    TagBytes(r.num, WireType(r)) + PayloadBytes(r)
  }

  function PayloadBytes(r: Record): seq<Byte>
    decreases r, 0
  {
    match r
    case Varint(_, v) => VarintBytes(v)
    case Fixed64(_, b) => b
    case Len(_, b) => VarintBytes(|b|) + b
    case Group(num, rs) => EncodeRecords(rs) + TagBytes(num, 4)
    case Fixed32(_, b) => b
  }

  function EncodeRecords(rs: seq<Record>): seq<Byte>
    decreases rs
  {
    if |rs| == 0 then [] else EncodeRecord(rs[0]) + EncodeRecords(rs[1..])
  }

  lemma {:induction false} EncodeConcat(x: seq<Record>, y: seq<Record>)
    ensures EncodeRecords(x + y) == EncodeRecords(x) + EncodeRecords(y)
    decreases |x|
  {
    if |x| == 0 {
      assert x + y == y;
    } else {
      assert (x + y)[1..] == x[1..] + y;
      EncodeConcat(x[1..], y);
    }
  }

  // ---------- reading undoes writing ----------

  lemma TagRoundTrip(num: nat, wireType: nat, rest: seq<Byte>)
    requires num < TWO29 && wireType < 8
    ensures ReadTag(TagBytes(num, wireType) + rest) == Some((num * 8 + wireType, |TagBytes(num, wireType)|))
  {
    Powers();
    VarintRoundTrip(num * 8 + wireType, 5, rest);
  }

  lemma BytesRoundTrip(b: seq<Byte>, rest: seq<Byte>)
    requires |b| <= MAX_SIZE
    ensures ReadBytes(VarintBytes(|b|) + b + rest) == Some((b, rest))
  {
    hide VarintBytes, ReadVarint, Pow128, ReadBytes;
    Powers();
    var len := VarintBytes(|b|);
    VarintRoundTrip(|b|, 5, b + rest);
    ThreeParts(len, b, rest);
    ReadBytesBehind(len + b + rest, |b|, |len|);
  }

  lemma ReadBytesBehind(b: seq<Byte>, len: nat, n: nat)
    requires ReadVarint(b, 5) == Some((len, n)) && len <= MAX_SIZE && n + len <= |b|
    ensures ReadBytes(b) == Some((b[n..n + len], b[n + len..]))
  {
    hide ReadVarint;
  }

  lemma ThreeParts(x: seq<Byte>, y: seq<Byte>, z: seq<Byte>)
    ensures x + y + z == x + (y + z)
    ensures (x + y + z)[|x|..|x| + |y|] == y && (x + y + z)[|x| + |y|..] == z
  {
  }

  lemma TagParts(num: nat, wireType: nat)
    requires wireType < 8
    ensures (num * 8 + wireType) / 8 == num && (num * 8 + wireType) % 8 == wireType
  {
  }

  lemma VarintFieldRoundTrip(num: nat, v: nat, rest: seq<Byte>)
    requires 1 <= num && v < TWO64
    ensures ReadField(num * 8, VarintBytes(v) + rest) == Some((Varint(num, v), rest))
  {
    Powers();
    TagParts(num, 0);
    VarintRoundTrip(v, 10, rest);
    assert (VarintBytes(v) + rest)[|VarintBytes(v)|..] == rest;
  }

  lemma FixedRoundTrip(b: seq<Byte>, rest: seq<Byte>)
    ensures ReadFixed(b + rest, |b|) == Some((b, rest))
  {
    assert (b + rest)[..|b|] == b;
    assert (b + rest)[|b|..] == rest;
  }

  lemma {:induction false} FieldRoundTrip(r: Record, rest: seq<Byte>)
    requires ValidRecord(r)
    ensures ReadField(TagOf(r), PayloadBytes(r) + rest) == Some((r, rest))
    decreases r, 0
  {
    TagParts(r.num, WireType(r));
    match r
    case Varint(num, v) => VarintFieldRoundTrip(num, v, rest);
    case Len(_, b) => BytesRoundTrip(b, rest);
    case Group(num, rs) => GroupRoundTrip(num, rs, rest);
    case Fixed64(_, b) => FixedRoundTrip(b, rest);
    case Fixed32(_, b) => FixedRoundTrip(b, rest);
  }

  lemma {:induction false} GroupRoundTrip(num: nat, rs: seq<Record>, rest: seq<Byte>)
    requires num < TWO29 && ValidRecords(rs)
    ensures ReadGroup(num, EncodeRecords(rs) + TagBytes(num, 4) + rest) == Some((rs, rest))
    decreases rs
  {
    var b := EncodeRecords(rs) + TagBytes(num, 4) + rest;
    if |rs| == 0 {
      assert b == TagBytes(num, 4) + rest;
      TagRoundTrip(num, 4, rest);
      TagParts(num, 4);
      assert b[|TagBytes(num, 4)|..] == rest;
    } else {
      var r := rs[0];
      var tail := EncodeRecords(rs[1..]) + TagBytes(num, 4) + rest;
      assert b == EncodeRecord(r) + tail;
      RecordRoundTrip(r, tail);
      GroupRoundTrip(num, rs[1..], rest);
      ReadGroupStep(num, b, r, tail);
      assert rs == [r] + rs[1..];
    }
  }

  /** One turn of the group loop, for a buffer that starts with a record. */
  lemma ReadGroupStep(num: nat, b: seq<Byte>, r: Record, tail: seq<Byte>)
    requires ReadRecord(b) == Some((r, tail))
    requires ReadGroup(num, tail).Some?
    ensures ReadGroup(num, b) == Some(([r] + ReadGroup(num, tail).value.0, ReadGroup(num, tail).value.1))
  {
  }

  lemma {:induction false} RecordRoundTrip(r: Record, rest: seq<Byte>)
    requires ValidRecord(r)
    ensures ReadRecord(EncodeRecord(r) + rest) == Some((r, rest))
    decreases r, 1
  {
    var tag, payload := TagBytes(r.num, WireType(r)), PayloadBytes(r) + rest;
    assert EncodeRecord(r) + rest == tag + payload;
    TagRoundTrip(r.num, WireType(r), payload);
    assert (tag + payload)[|tag|..] == payload;
    FieldRoundTrip(r, rest);
  }

  /** How a record stands on the wire: the varint of its tag - field number and, in the low three bits,
      the kind of payload - and behind it the payload of that kind. */
  ghost predicate StandsFor(b: seq<Byte>, r: Record)
    decreases r
  {
    exists t, p :: b == t + p && IsVarint(t) && Weight(t) / 8 == r.num && IsPayload(p, Weight(t) % 8, r)
  }

  ghost predicate IsPayload(p: seq<Byte>, kind: nat, r: Record)
    decreases r, 0
  {
    match r
    case Varint(_, v) => kind == 0 && IsVarint(p) && Weight(p) == v
    case Fixed64(_, b) => kind == 1 && p == b
    case Len(_, b) => kind == 2 && exists l :: IsVarint(l) && Weight(l) == |b| && p == l + b
    case Group(num, rs) =>
      kind == 3 && exists x, e :: IsVarint(e) && Weight(e) / 8 == num && Weight(e) % 8 == 4 && p == x + e && StandFor(x, rs)
    case Fixed32(_, b) => kind == 5 && p == b
  }

  ghost predicate StandFor(b: seq<Byte>, rs: seq<Record>)
    decreases rs
  {
    if |rs| == 0 then b == []
    else exists x, y :: b == x + y && StandsFor(x, rs[0]) && StandFor(y, rs[1..])
  }

  /** Every record is written in that form. */
  lemma {:induction false} EncodedForm(r: Record)
    ensures StandsFor(EncodeRecord(r), r)
    decreases r, 1
  {
    var t, p := TagBytes(r.num, WireType(r)), PayloadBytes(r);
    VarintShape(r.num * 8 + WireType(r));
    TagParts(r.num, WireType(r));
    PayloadForm(r);
    hide IsVarint, Weight, VarintBytes, IsPayload, PayloadBytes;
    assert EncodeRecord(r) == t + p;
  }

  lemma {:induction false} PayloadForm(r: Record)
    ensures IsPayload(PayloadBytes(r), WireType(r), r)
    decreases r, 0
  {
    hide IsVarint, Weight, VarintBytes, StandFor;
    match r
    case Varint(_, v) => VarintShape(v);
    case Len(_, b) =>
      VarintShape(|b|);
      var l := VarintBytes(|b|);
      assert PayloadBytes(r) == l + b;
    case Group(num, rs) =>
      EncodedForms(rs);
      VarintShape(num * 8 + 4);
      TagParts(num, 4);
      var x, e := EncodeRecords(rs), TagBytes(num, 4);
      assert PayloadBytes(r) == x + e;
    case _ =>
  }

  lemma {:induction false} EncodedForms(rs: seq<Record>)
    ensures StandFor(EncodeRecords(rs), rs)
    decreases rs
  {
    if |rs| > 0 {
      EncodedForm(rs[0]);
      EncodedForms(rs[1..]);
      hide StandsFor;
      assert EncodeRecords(rs) == EncodeRecord(rs[0]) + EncodeRecords(rs[1..]);
    }
  }

  /** Parsing undoes printing for every list of records, nested groups included. */
  lemma {:induction false} RecordsRoundTrip(rs: seq<Record>)
    requires ValidRecords(rs)
    ensures ParseRecords(EncodeRecords(rs)) == Some(rs)
    decreases |rs|
  {
    if |rs| > 0 {
      RecordRoundTrip(rs[0], EncodeRecords(rs[1..]));
      RecordsRoundTrip(rs[1..]);
      assert EncodeRecords(rs) == EncodeRecord(rs[0]) + EncodeRecords(rs[1..]);
      assert rs == [rs[0]] + rs[1..];
    }
  }

  // ---------- a parse does not look past what it consumed ----------

  lemma {:induction false} VarintExtends(b: seq<Byte>, limit: nat, more: seq<Byte>)
    requires ReadVarint(b, limit).Some?
    ensures ReadVarint(b + more, limit) == ReadVarint(b, limit)
    decreases limit
  {
    if b[0] >= 128 {
      assert (b + more)[1..] == b[1..] + more;
      VarintExtends(b[1..], limit - 1, more);
    }
  }

  lemma TagExtends(b: seq<Byte>, more: seq<Byte>)
    requires ReadTag(b).Some?
    ensures ReadTag(b + more) == ReadTag(b)
    ensures (b + more)[ReadTag(b).value.1..] == b[ReadTag(b).value.1..] + more
  {
    VarintExtends(b, 5, more);
  }

  lemma ExtendSlice(b: seq<Byte>, n: nat, more: seq<Byte>)
    requires n <= |b|
    ensures (b + more)[..n] == b[..n] && (b + more)[n..] == b[n..] + more
  {
  }

  lemma BytesExtend(b: seq<Byte>, more: seq<Byte>)
    requires ReadBytes(b).Some?
    ensures ReadBytes(b + more) == Some((ReadBytes(b).value.0, ReadBytes(b).value.1 + more))
  {
    VarintExtends(b, 5, more);
    var r := ReadVarint(b, 5).value;
    ExtendSlice(b, r.1 + r.0, more);
    assert (b + more)[r.1..r.1 + r.0] == b[r.1..r.1 + r.0];
  }

  lemma {:induction false} FieldExtends(tag: nat, b: seq<Byte>, more: seq<Byte>)
    requires ReadField(tag, b).Some?
    ensures ReadField(tag, b + more) == Some((ReadField(tag, b).value.0, ReadField(tag, b).value.1 + more))
    decreases |b|, 1
  {
    if tag % 8 == 0 {
      VarintExtends(b, 10, more);
      ExtendSlice(b, ReadVarint64(b).value.1, more);
    } else if tag % 8 == 1 {
      ExtendSlice(b, 8, more);
    } else if tag % 8 == 2 {
      BytesExtend(b, more);
    } else if tag % 8 == 3 {
      GroupExtends(tag / 8, b, more);
    } else {
      ExtendSlice(b, 4, more);
    }
  }

  lemma {:induction false} GroupExtends(num: nat, b: seq<Byte>, more: seq<Byte>)
    requires ReadGroup(num, b).Some?
    ensures ReadGroup(num, b + more) == Some((ReadGroup(num, b).value.0, ReadGroup(num, b).value.1 + more))
    decreases |b|, 0
  {
    TagExtends(b, more);
    var t := ReadTag(b).value;
    if t.0 % 8 != 4 {
      FieldExtends(t.0, b[t.1..], more);
      GroupExtends(num, ReadField(t.0, b[t.1..]).value.1, more);
    }
  }

  lemma RecordExtends(b: seq<Byte>, more: seq<Byte>)
    requires ReadRecord(b).Some?
    ensures ReadRecord(b + more) == Some((ReadRecord(b).value.0, ReadRecord(b).value.1 + more))
  {
    TagExtends(b, more);
    FieldExtends(ReadTag(b).value.0, b[ReadTag(b).value.1..], more);
  }

  /** Any buffer that parses can be extended: the parse of `x + y` is the two parses in a row. */
  lemma {:induction false} ParseConcat(x: seq<Byte>, y: seq<Byte>)
    requires ParseRecords(x).Some?
    ensures ParseRecords(y).None? ==> ParseRecords(x + y).None?
    ensures ParseRecords(y).Some? ==> ParseRecords(x + y) == Some(ParseRecords(x).value + ParseRecords(y).value)
    decreases |x|
  {
    if |x| == 0 {
      assert x + y == y;
      assert ParseRecords(y).Some? ==> [] + ParseRecords(y).value == ParseRecords(y).value;
    } else {
      var (r, rest) := ReadRecord(x).value;
      RecordExtends(x, y);
      ParseConcat(rest, y);
      if ParseRecords(y).Some? {
        assert [r] + (ParseRecords(rest).value + ParseRecords(y).value)
            == ([r] + ParseRecords(rest).value) + ParseRecords(y).value;
      }
    }
  }
}
