/**
  One turn of a generated parse loop: what reading one record, field by field and kind by
  kind, does to the schema-level parse.
*/
module ParseSteps {
  import opened Prelude
  import opened Utf8
  import opened Wire
  import opened Schema

  /** The first record of b is the one that starts with this tag and continues at p. */
  ghost predicate StartsWith(b: seq<Byte>, tag: nat, p: seq<Byte>) {
    ReadTag(b).Some? && ReadTag(b).value.0 == tag && p == b[ReadTag(b).value.1..]
  }

  /** Parsing b into m goes on as parsing rest into next. */
  ghost predicate Continues(s: seq<Field>, m: Msg, b: seq<Byte>, next: Msg, rest: seq<Byte>) {
    && |rest| < |b|
    && Valid(s, m) && Valid(s, next)
    && ParseInto(s, m, b) == ParseInto(s, next, rest)
    && Left(s, m, b) == Left(s, next, rest)
  }

  /** Parsing b into m fails, and the message is left with these contents. */
  ghost predicate Fails(s: seq<Field>, m: Msg, b: seq<Byte>, left: Msg) {
    Valid(s, m) && ParseInto(s, m, b).None? && Left(s, m, b) == left
  }

  function WithValue(m: Msg, i: nat, v: Value): Msg
    requires i < |m.vals|
  {
    m.(vals := m.vals[i := v])
  }

  lemma {:induction false} ParseStep(s: seq<Field>, m: Msg, b: seq<Byte>, r: Record, rest: seq<Byte>)
    requires Valid(s, m) && |b| > 0 && ReadRecord(b) == Some((r, rest))
    ensures ValidRecord(r)
    ensures var o, i := Apply(s, m, r), Find(s, TagOf(r));
            if o.Some? then Continues(s, m, b, o.value, rest)
            else i < |s| && WireType(r) == KindWire(s[i].kind) && Fails(s, m, b, WithValue(m, i, LeftValue(s[i], m.vals[i], r)))
  {
    ReadRecordValid(b);
    ParsedValid(b);
    ParsedValid(rest);
    TagParts(r.num, WireType(r));
    if ParseRecords(rest).Some? {
      var tail := ParseRecords(rest).value;
      assert ParseRecords(b).value == [r] + tail;
      assert ([r] + tail)[1..] == tail;
    }
  }

  lemma KnownStep(s: seq<Field>, m: Msg, b: seq<Byte>, i: nat, r: Record, rest: seq<Byte>)
    requires ValidSchema(s) && Valid(s, m) && |b| > 0 && ReadRecord(b) == Some((r, rest))
    requires i < |s| && TagOf(r) == FieldTag(s[i])
    ensures ValidRecord(r) && WireType(r) == KindWire(s[i].kind)
    ensures var o := ApplyValue(s[i], m.vals[i], r);
            if o.None? then Fails(s, m, b, WithValue(m, i, LeftValue(s[i], m.vals[i], r)))
            else Continues(s, m, b, WithValue(m, i, o.value), rest)
  {
    hide ValidSchema, Fails, Continues, Valid, Find, ReadRecord, ApplyValue, LeftValue;
    FindIs(s, i);
    TagParts(r.num, WireType(r));
    TagParts(s[i].num, KindWire(s[i].kind));
    ParseStep(s, m, b, r, rest);
  }

  lemma FieldTagParts(s: seq<Field>, i: nat)
    requires ValidSchema(s) && i < |s|
    ensures FieldTag(s[i]) / 8 == s[i].num >= 1 && FieldTag(s[i]) % 8 == KindWire(s[i].kind) && FieldTag(s[i]) >= 8
  {
    TagParts(s[i].num, KindWire(s[i].kind));
  }

  lemma TagStep(s: seq<Field>, m: Msg, b: seq<Byte>)
    requires Valid(s, m) && |b| > 0
    ensures ReadTag(b).None? ==> Fails(s, m, b, m)
  {
  }

  lemma ExistingValid(s: seq<Field>, m: Msg, i: nat)
    requires Valid(s, m) && i < |s| && s[i].kind.Message?
    ensures Valid(s[i].kind.fields, Existing(s[i].kind.fields, m.vals[i]))
  {
    DefaultValid(s[i].kind.fields);
    assert Fits(s[i], m.vals[i]);
  }

  /** The first record cannot be read to its end. */
  lemma BrokenStep(s: seq<Field>, m: Msg, b: seq<Byte>, tag: nat, p: seq<Byte>, i: nat)
    requires ValidSchema(s) && Valid(s, m) && |b| > 0 && StartsWith(b, tag, p) && ReadField(tag, p).None?
    requires i < |s| && tag == FieldTag(s[i])
    ensures !s[i].kind.Message? ==> Fails(s, m, b, m)
    ensures s[i].kind.Message? ==>
              Fits(s[i], m.vals[i]) && Fails(s, m, b, WithValue(m, i, LeftCut(s[i], m.vals[i], p)))
  {
    assert Fits(s[i], m.vals[i]);
    hide ValidSchema, Valid, Find, ReadField, ReadTag, LeftCut;
    FindIs(s, i);
  }

  lemma StringStep(s: seq<Field>, m: Msg, b: seq<Byte>, tag: nat, p: seq<Byte>, i: nat)
    requires ValidSchema(s) && Valid(s, m) && |b| > 0 && StartsWith(b, tag, p)
    requires i < |s| && s[i].kind.Str? && tag == FieldTag(s[i])
    ensures ReadBytes(p).None? ==> Fails(s, m, b, m)
    ensures ReadBytes(p).Some? ==>
              var (text, rest) := ReadBytes(p).value;
              if ValidUtf8(text) then Continues(s, m, b, WithValue(m, i, Text(text)), rest)
              else Fails(s, m, b, WithValue(m, i, Text(text)))
  {
    FieldTagParts(s, i);
    ReadLenField(tag, p);
    hide Fails, Continues, Find, ReadBytes, ReadTag, ParseRecords, ReadField, Valid, ValidSchema;
    if ReadBytes(p).Some? {
      KnownStep(s, m, b, i, Len(s[i].num, ReadBytes(p).value.0), ReadBytes(p).value.1);
    } else {
      BrokenStep(s, m, b, tag, p, i);
    }
  }

  lemma NumStep(s: seq<Field>, m: Msg, b: seq<Byte>, tag: nat, p: seq<Byte>, i: nat)
    requires ValidSchema(s) && Valid(s, m) && |b| > 0 && StartsWith(b, tag, p)
    requires i < |s| && (s[i].kind.Enum? || s[i].kind.Int32?) && tag == FieldTag(s[i])
    ensures ReadVarint64(p).None? ==> Fails(s, m, b, m)
    ensures ReadVarint64(p).Some? ==>
              Continues(s, m, b, WithValue(m, i, Num(ToInt32(ReadVarint64(p).value.0))), p[ReadVarint64(p).value.1..])
  {
    FieldTagParts(s, i);
    ReadVarintField(tag, p);
    hide Fails, Continues, Find, ReadVarint64, ReadTag, ParseRecords, ReadField, Valid, ValidSchema;
    if ReadVarint64(p).Some? {
      KnownStep(s, m, b, i, Varint(s[i].num, ReadVarint64(p).value.0), p[ReadVarint64(p).value.1..]);
    } else {
      BrokenStep(s, m, b, tag, p, i);
    }
  }

  lemma BoolStep(s: seq<Field>, m: Msg, b: seq<Byte>, tag: nat, p: seq<Byte>, i: nat)
    requires ValidSchema(s) && Valid(s, m) && |b| > 0 && StartsWith(b, tag, p)
    requires i < |s| && s[i].kind.Bool? && tag == FieldTag(s[i])
    ensures ReadVarint64(p).None? ==> Fails(s, m, b, m)
    ensures ReadVarint64(p).Some? ==>
              Continues(s, m, b, WithValue(m, i, Flag(ReadVarint64(p).value.0 != 0)), p[ReadVarint64(p).value.1..])
  {
    FieldTagParts(s, i);
    ReadVarintField(tag, p);
    hide Fails, Continues, Find, ReadVarint64, ReadTag, ParseRecords, ReadField, Valid, ValidSchema;
    if ReadVarint64(p).Some? {
      KnownStep(s, m, b, i, Varint(s[i].num, ReadVarint64(p).value.0), p[ReadVarint64(p).value.1..]);
    } else {
      BrokenStep(s, m, b, tag, p, i);
    }
  }

  /** A submessage whose bytes are all there. */
  lemma MessageBody(s: seq<Field>, m: Msg, b: seq<Byte>, i: nat, bytes: seq<Byte>, rest: seq<Byte>)
    requires ValidSchema(s) && Valid(s, m) && |b| > 0 && i < |s| && s[i].kind.Message?
    requires ReadRecord(b) == Some((Len(s[i].num, bytes), rest))
    ensures var fs := s[i].kind.fields;
            var existing := Existing(fs, m.vals[i]);
            && Valid(fs, existing)
            && var o := ParseInto(fs, existing, bytes);
               if o.None? then Fails(s, m, b, WithValue(m, i, Present(Left(fs, existing, bytes))))
               else Continues(s, m, b, WithValue(m, i, Present(o.value)), rest)
  {
    ExistingValid(s, m, i);
    assert Fits(s[i], m.vals[i]);
    hide Fails, Continues, Valid, ValidSchema, Left, ParseInto, Existing, ReadRecord, Fits;
    KnownStep(s, m, b, i, Len(s[i].num, bytes), rest);
  }

  lemma MessageStep(s: seq<Field>, m: Msg, b: seq<Byte>, tag: nat, p: seq<Byte>, i: nat)
    requires ValidSchema(s) && Valid(s, m) && |b| > 0 && StartsWith(b, tag, p)
    requires i < |s| && s[i].kind.Message? && tag == FieldTag(s[i])
    ensures Valid(s[i].kind.fields, Existing(s[i].kind.fields, m.vals[i]))
    ensures var fs := s[i].kind.fields;
            var existing := Existing(fs, m.vals[i]);
            if ReadBytes(p).None? then Fits(s[i], m.vals[i]) && Fails(s, m, b, WithValue(m, i, LeftCut(s[i], m.vals[i], p)))
            else
              var (bytes, rest) := ReadBytes(p).value;
              var o := ParseInto(fs, existing, bytes);
              if o.None? then Fails(s, m, b, WithValue(m, i, Present(Left(fs, existing, bytes))))
              else Continues(s, m, b, WithValue(m, i, Present(o.value)), rest)
  {
    ExistingValid(s, m, i);
    FieldTagParts(s, i);
    hide Fails, Continues, Find, ReadBytes, ReadTag, ReadField, Valid, ValidSchema, Left, ParseInto, Existing, Fits, LeftCut;
    ReadLenField(tag, p);
    if ReadBytes(p).None? {
      BrokenStep(s, m, b, tag, p, i);
    } else {
      MessageBody(s, m, b, i, ReadBytes(p).value.0, ReadBytes(p).value.1);
    }
  }

  /** What the length in front of a submessage says about its bytes. */
  lemma LengthRead(f: Field, v: Value, p: seq<Byte>)
    requires Fits(f, v) && f.kind.Message?
    ensures Valid(f.kind.fields, Existing(f.kind.fields, v))
    ensures var size := ReadVarint(p, 5);
            if size.None? || size.value.0 > MAX_SIZE then
              ReadBytes(p).None? && LeftCut(f, v, p) == Present(Existing(f.kind.fields, v))
            else LeftCut(f, v, p) == Present(Left(f.kind.fields, Existing(f.kind.fields, v), p[size.value.1..]))
  {
    DefaultValid(f.kind.fields);
    hide Left, Valid;
  }

  lemma UnknownStep(s: seq<Field>, m: Msg, b: seq<Byte>, tag: nat, p: seq<Byte>)
    requires ValidSchema(s) && Valid(s, m) && |b| > 0 && StartsWith(b, tag, p) && Find(s, tag) == |s|
    ensures ReadField(tag, p).None? ==> Fails(s, m, b, m)
    ensures ReadField(tag, p).Some? ==>
              Continues(s, m, b, m.(unknown := m.unknown + [ReadField(tag, p).value.0]), ReadField(tag, p).value.1)
  {
    if ReadField(tag, p).Some? {
      ParseStep(s, m, b, ReadField(tag, p).value.0, ReadField(tag, p).value.1);
    }
  }

  /** Tag 0 and a stray end-group tag make the generated parser stop and the parse fail. */
  lemma UnusualTag(tag: nat, p: seq<Byte>)
    requires tag == 0 || tag % 8 == 4
    ensures ReadField(tag, p).None?
  {
  }

  lemma ParseDone(s: seq<Field>, m: Msg)
    requires Valid(s, m)
    ensures ParseInto(s, m, []) == Some(m) && Left(s, m, []) == m
  {
  }
}
