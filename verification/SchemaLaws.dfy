/**
  What printing, parsing and merging a message mean value by value: the records that stand for it on
  the wire, what one record does to a message, and which value a merge keeps.
*/
module SchemaLaws {
  import opened Prelude
  import opened Utf8
  import opened Wire
  import opened Schema
  import opened ParseSteps

  /** Signed values travel as their two's complement: modulo 2^64 out, modulo 2^32 in. */
  lemma TwosComplement(n: int, v: nat)
    requires IsInt32(n)
    ensures FromInt32(n) < TWO64 && (FromInt32(n) - n) % TWO64 == 0
    ensures IsInt32(ToInt32(v)) && (ToInt32(v) - v) % TWO32 == 0
  {
    var q := v / TWO32;
    assert v == q * TWO32 + v % TWO32;
    Multiple(-q);
    Multiple(-q - 1);
  }

  lemma Multiple(k: int)
    ensures (k * TWO32) % TWO32 == 0
  {
  }

  // ---------- default values and merging ----------

  /** Zero, false, the empty text, or no submessage. */
  predicate IsEmpty(v: Value) {
    v == Num(0) || v == Flag(false) || v == Text([]) || v == Absent
  }

  lemma DefaultIsEmpty(s: seq<Field>, i: nat)
    requires i < |s|
    ensures |Default(s).vals| == |s| && IsEmpty(Default(s).vals[i]) && Default(s).unknown == []
  {
  }

  /** A merge keeps, of each pair of values, the second unless it is empty; two submessages are merged
      in turn; unknown records are kept one behind the other. */
  lemma MergeRule(s: seq<Field>, a: Msg, b: Msg, i: nat)
    requires Valid(s, a) && Valid(s, b) && i < |s|
    ensures Fits(s[i], a.vals[i]) && Fits(s[i], b.vals[i])
    ensures var v := Merge(s, a, b).vals[i];
            if a.vals[i].Present? && b.vals[i].Present?
            then v == Present(Merge(s[i].kind.fields, a.vals[i].m, b.vals[i].m))
            else v == if IsEmpty(b.vals[i]) then a.vals[i] else b.vals[i]
    ensures Merge(s, a, b).unknown == a.unknown + b.unknown
  {
    assert Fits(s[i], a.vals[i]) && Fits(s[i], b.vals[i]);
    if b.vals[i].Present? { MergeIntoDefault(s[i].kind.fields, b.vals[i].m); }
  }

  // ---------- the records of a printed message ----------

  /** A record that prints the value of a field: never an empty one; booleans as 1, numbers modulo 2^64. */
  ghost predicate Prints(s: seq<Field>, m: Msg, r: Record)
    requires Valid(s, m)
  {
    var i := Find(s, TagOf(r));
    i < |s| && Fits(s[i], m.vals[i]) && !IsEmpty(m.vals[i]) &&
    match m.vals[i]
    case Num(n) => r.Varint? && (r.v - n) % TWO64 == 0
    case Flag(b) => r.Varint? && r.v == 1
    case Text(t) => r.Len? && r.b == t
    case Present(sub) => r.Len? && r.b == Serialize(s[i].kind.fields, sub)
    case Absent => false
  }

  /** In the order of the schema, each field at most once. */
  ghost predicate InOrder(s: seq<Field>, rs: seq<Record>, n: nat) {
    && (forall k | 0 <= k < |rs| :: Find(s, TagOf(rs[k])) < n)
    && (forall j, k | 0 <= j < k < |rs| :: Find(s, TagOf(rs[j])) < Find(s, TagOf(rs[k])))
  }

  lemma ValuePrints(s: seq<Field>, m: Msg, i: nat)
    requires ValidSchema(s) && Valid(s, m) && i < |s|
    ensures Fits(s[i], m.vals[i]) && |ValueRecords(s[i], m.vals[i])| <= 1
    ensures forall r | r in ValueRecords(s[i], m.vals[i]) :: Find(s, TagOf(r)) == i && Prints(s, m, r)
  {
    assert Fits(s[i], m.vals[i]);
    FindIs(s, i);
    if m.vals[i].Num? { TwosComplement(m.vals[i].n, 0); }
    hide ValidSchema, Find, Serialize, FromInt32;
  }

  lemma {:induction false} FieldsPrint(s: seq<Field>, m: Msg, n: nat)
    requires ValidSchema(s) && Valid(s, m) && n <= |s|
    ensures InOrder(s, FieldRecords(s, m, n), n)
    ensures forall r | r in FieldRecords(s, m, n) :: Prints(s, m, r)
    decreases n
  {
    hide ValidSchema, Prints, Find;
    if n > 0 {
      FieldsPrint(s, m, n - 1);
      ValuePrints(s, m, n - 1);
      hide ValueRecords, Valid;
      var x, y := FieldRecords(s, m, n - 1), ValueRecords(s[n - 1], m.vals[n - 1]);
      assert FieldRecords(s, m, n) == x + y;
      assert forall k | 0 <= k < |y| :: y[k] in y;
    }
  }

  /** A printed message is, on the wire, the records of its values that are not empty, in the order of
      the schema and each once, and behind them its unknown records. */
  lemma SerializedRecords(s: seq<Field>, m: Msg) returns (known: seq<Record>)
    requires ValidSchema(s) && Valid(s, m) && |Serialize(s, m)| <= MAX_SIZE
    ensures ParseRecords(Serialize(s, m)) == Some(known + m.unknown)
    ensures InOrder(s, known, |s|) && forall r | r in known :: Prints(s, m, r)
  {
    known := FieldRecords(s, m, |s|);
    EncodeConcat(known, m.unknown);
    ApplyFields(s, m, m, |s|);
    RecordsRoundTrip(known + m.unknown);
    FieldsPrint(s, m, |s|);
  }

  // ---------- what one record does ----------

  /** A varint record sets a number to its low 32 bits and a boolean to whether it is not zero,
      whatever was there, and touches nothing else. */
  lemma ReadScalar(s: seq<Field>, m: Msg, i: nat, v: nat)
    requires ValidSchema(s) && Valid(s, m) && i < |s| && v < TWO64
    requires s[i].kind.Enum? || s[i].kind.Int32? || s[i].kind.Bool?
    ensures var o := ParseInto(s, m, EncodeRecord(Varint(s[i].num, v)));
            && o.Some? && o.value == WithValue(m, i, o.value.vals[i])
            && (s[i].kind.Bool? ==> o.value.vals[i] == Flag(v != 0))
            && (!s[i].kind.Bool? ==>
                  o.value.vals[i].Num? && IsInt32(o.value.vals[i].n) && (o.value.vals[i].n - v) % TWO32 == 0)
  {
    var r := Varint(s[i].num, v);
    OneRecord(s, m, i, r);
    TwosComplement(0, v);
    hide ValidSchema, Valid, Find, EncodeRecord, ToInt32, ParseInto;
  }

  lemma OneRecord(s: seq<Field>, m: Msg, i: nat, r: Record)
    requires ValidSchema(s) && Valid(s, m) && i < |s| && ValidRecord(r) && TagOf(r) == FieldTag(s[i])
    ensures Fits(s[i], m.vals[i]) && WireType(r) == KindWire(s[i].kind)
    ensures var o := ApplyValue(s[i], m.vals[i], r);
            ParseInto(s, m, EncodeRecord(r)) == if o.Some? then Some(WithValue(m, i, o.value)) else None
  {
    var b := EncodeRecord(r);
    VarintShape(r.num * 8 + WireType(r));
    assert |b| > 0;
    RecordRoundTrip(r, []);
    assert b + [] == b;
    hide EncodeRecord, ReadRecord, ValidSchema, Find, ApplyValue, ParseInto, Left;
    KnownStep(s, m, b, i, r, []);
    var o := ApplyValue(s[i], m.vals[i], r);
    if o.Some? { ParseDone(s, WithValue(m, i, o.value)); }
  }

  /** A text replaces the one there if it is UTF-8; otherwise the parse fails. */
  lemma ReadsText(s: seq<Field>, m: Msg, i: nat, t: seq<Byte>)
    requires ValidSchema(s) && Valid(s, m) && i < |s| && s[i].kind.Str? && |t| <= MAX_SIZE
    ensures ParseInto(s, m, EncodeRecord(Len(s[i].num, t))) ==
            if ValidUtf8(t) then Some(WithValue(m, i, Text(t))) else None
  {
    OneRecord(s, m, i, Len(s[i].num, t));
    hide ValidSchema, Valid, Find, EncodeRecord, ParseInto, ValidUtf8;
  }

  // ---------- what a failed parse leaves ----------

  /** What was parsed before stays: the parse goes on from there. */
  lemma {:induction false} LeftConcat(s: seq<Field>, m: Msg, x: seq<Byte>, y: seq<Byte>)
    requires Valid(s, m) && ParseInto(s, m, x).Some?
    ensures Left(s, m, x + y) == Left(s, ParseInto(s, m, x).value, y)
    decreases |x|
  {
    if |x| == 0 {
      assert x + y == y;
      ParseDone(s, m);
    } else {
      var (r, rest) := ReadRecord(x).value;
      RecordExtends(x, y);
      ParseStep(s, m, x, r, rest);
      ParseStep(s, m, x + y, r, rest + y);
      hide Left, ParseInto, ReadRecord, Apply;
      LeftConcat(s, Apply(s, m, r).value, rest, y);
    }
  }

  /** A text that is not UTF-8 stays in its member, and nothing behind it is read. */
  lemma BadTextStays(s: seq<Field>, m: Msg, i: nat, t: seq<Byte>, rest: seq<Byte>)
    requires ValidSchema(s) && Valid(s, m) && i < |s| && s[i].kind.Str? && |t| <= MAX_SIZE && !ValidUtf8(t)
    ensures var b := EncodeRecord(Len(s[i].num, t)) + rest;
            ParseInto(s, m, b).None? && Left(s, m, b) == WithValue(m, i, Text(t))
  {
    var r := Len(s[i].num, t);
    var b := EncodeRecord(r) + rest;
    assert Fits(s[i], m.vals[i]);
    VarintShape(r.num * 8 + 2);
    assert |b| > 0;
    RecordRoundTrip(r, rest);
    hide EncodeRecord, ReadRecord, ValidSchema, Valid, Find, ParseInto, Left, ValidUtf8;
    KnownStep(s, m, b, i, r, rest);
  }

  /** A submessage that does not parse stays with what its own parse left, and nothing behind it is read. */
  lemma BadMessageStays(s: seq<Field>, m: Msg, i: nat, t: seq<Byte>, rest: seq<Byte>)
    requires ValidSchema(s) && Valid(s, m) && i < |s| && s[i].kind.Message? && |t| <= MAX_SIZE
    ensures var fs := s[i].kind.fields;
            var before := if m.vals[i].Present? then m.vals[i].m else Default(fs);
            var b := EncodeRecord(Len(s[i].num, t)) + rest;
            && Valid(fs, before)
            && (ParseInto(fs, before, t).None? ==>
                  ParseInto(s, m, b).None? && Left(s, m, b) == WithValue(m, i, Present(Left(fs, before, t))))
  {
    var r := Len(s[i].num, t);
    var b := EncodeRecord(r) + rest;
    ExistingValid(s, m, i);
    VarintShape(r.num * 8 + 2);
    assert |b| > 0;
    RecordRoundTrip(r, rest);
    hide EncodeRecord, ReadRecord, ValidSchema, Valid, Find, ParseInto, Left;
    MessageBody(s, m, b, i, t, rest);
  }

  /** A record that cannot be read to its end changes nothing, unless it is a submessage's. */
  lemma BrokenStays(s: seq<Field>, m: Msg, b: seq<Byte>)
    requires Valid(s, m) && |b| > 0 && ReadRecord(b).None?
    ensures Left(s, m, b) == m ||
            (ReadTag(b).Some? && Find(s, ReadTag(b).value.0) < |s| && s[Find(s, ReadTag(b).value.0)].kind.Message?)
  {
    hide ReadTag, ReadField, Find;
  }
}
