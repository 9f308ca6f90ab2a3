/**
  The code that the protobuf compiler generated into Proto/user_auth.pb.cc. Its seven message
  classes repeat one template: a parse loop that switches on the field number and compares the
  whole tag byte, a printer and a size calculator that visit the fields one by one (each in its
  own order), and a merge. The template is written once here, over the constants that differ
  from class to class; AuthCode lists those constants.
*/
module GeneratedCode {
  import opened Prelude
  import opened Utf8
  import opened Wire
  import opened Schema
  import opened ParseSteps
  import opened PrintSteps

  /** The runtime call made for a field: ReadVarint64, ReadVarint32, InlineGreedyStringParser with VerifyUTF8, ParseMessage. */
  datatype Reader = ReadEnum | ReadBool | ReadInt32 | ReadText | ReadMessage(code: Code)

  /** `case number: if (static_cast<uint8_t>(tag) == tag) ...` for the class member at a position. */
  datatype Case = Case(number: nat, tag: nat, slot: nat, reader: Reader)

  /** One generated class: its switch, the (number, member) pairs its printer visits, and the members
      its size calculator and its merge visit. */
  datatype Code = Code(depth: nat, cases: seq<Case>, writes: seq<(nat, nat)>, sizes: seq<nat>)

  ghost predicate CaseConforms(c: Case, f: Field, i: nat, depth: nat)
    decreases depth, 0
  {
    && f.num < 16 && c.number == f.num && c.tag == FieldTag(f) && c.slot == i
    && match c.reader
       case ReadEnum => f.kind.Enum?
       case ReadBool => f.kind.Bool?
       case ReadInt32 => f.kind.Int32?
       case ReadText => f.kind.Str?
       case ReadMessage(code) => f.kind.Message? && code.depth < depth && Conforms(code, f.kind.fields)
  }

  /** The constants of a generated class are those its .proto message asks for. */
  ghost predicate Conforms(c: Code, s: seq<Field>)
    decreases c.depth, 1
  {
    && ValidSchema(s)
    && |c.cases| == |s| && (forall i | 0 <= i < |s| :: CaseConforms(c.cases[i], s[i], i, c.depth))
    && |c.writes| == |s| && (forall i | 0 <= i < |s| :: c.writes[i] == (s[i].num, i))
    && Lists(c.sizes, |s|)
  }

  /** The switch: the position of the case with this field number, or the number of cases. */
  function Switch(cases: seq<Case>, number: nat): (k: nat)
    ensures k <= |cases|
    ensures k < |cases| ==> cases[k].number == number
    ensures k == |cases| ==> forall j | 0 <= j < |cases| :: cases[j].number != number
  {
    if |cases| == 0 then 0
    else if cases[|cases| - 1].number == number then |cases| - 1
    else
      var k := Switch(cases[..|cases| - 1], number);
      if k == |cases| - 1 then |cases| else k
  }

  /** A field number below 16 leaves room for the whole tag in one byte. */
  lemma LowByte(tag: nat, num: nat, wire: nat)
    requires num < 16 && wire < 8
    ensures tag == num * 8 + wire ==> tag / 8 == num
    ensures tag / 8 == num ==> tag % 256 == tag
  {
  }

  lemma CaseAt(c: Code, s: seq<Field>, i: nat)
    requires Conforms(c, s) && i < |s|
    ensures s[i].num < 16 && c.cases[i].number == s[i].num && c.cases[i].tag == FieldTag(s[i])
  {
    assert CaseConforms(c.cases[i], s[i], i, c.depth);
  }

  lemma NumbersDiffer(c: Code, s: seq<Field>, i: nat, k: nat)
    requires Conforms(c, s) && i < |s| && k < |s| && s[i].num == s[k].num
    ensures i == k
  {
  }

  /** The switch and the tag comparison together find exactly the field of that tag. */
  lemma SwitchFinds(c: Code, s: seq<Field>, tag: nat)
    requires Conforms(c, s)
    ensures var k := Switch(c.cases, tag / 8);
            if k < |s| && tag % 256 == c.cases[k].tag then FieldTag(s[k]) == tag else Find(s, tag) == |s|
  {
    assert |c.cases| == |s|;
    hide Switch, Find, Conforms;
    var k := Switch(c.cases, tag / 8);
    var i := Find(s, tag);
    if k < |s| {
      CaseAt(c, s, k);
      LowByte(tag, s[k].num, KindWire(s[k].kind));
    }
    if i < |s| {
      CaseAt(c, s, i);
      LowByte(tag, s[i].num, KindWire(s[i].kind));
      assert c.cases[i].number == tag / 8;
      NumbersDiffer(c, s, i, k);
    }
  }

  /** The `_cached_size_` of a message and of the messages in its members. */
  datatype Cache = Cache(size: nat, nested: seq<Cache>)

  const NOTHING := Cache(0, [])

  /** Every cached size in the tree is the printed length of its message. */
  ghost predicate Cached(s: seq<Field>, m: Msg, c: Cache)
    requires Valid(s, m)
    decreases s
  {
    && c.size == |Serialize(s, m)| && |c.nested| == |s|
    && forall i | 0 <= i < |s| :: CachedField(s[i], m.vals[i], c.nested[i])
  }

  ghost predicate CachedField(f: Field, v: Value, c: Cache)
    requires Fits(f, v)
    decreases f
  {
    match f.kind
    case Message(fs) => v.Present? ==> Cached(fs, v.m, c)
    case _ => true
  }

  class Message {
    const code: Code
    ghost const schema: seq<Field>
    var vals: seq<Value>
    var unknown: seq<Record>
    var cache: Cache

    function Contents(): Msg
      reads this
    {
      Msg(vals, unknown)
    }

    ghost predicate Ready()
      reads this
    {
      Conforms(code, schema) && Valid(schema, Contents())
    }

    /** An object that holds a given message. */
    constructor (code: Code, ghost schema: seq<Field>, m: Msg)
      ensures this.code == code && this.schema == schema && Contents() == m
    {
      this.code, this.schema := code, schema;
      vals, unknown, cache := m.vals, m.unknown, NOTHING;
    }

    static function Cleared(r: Reader): Value {
      match r
      case ReadEnum => Num(0)
      case ReadBool => Flag(false)
      case ReadInt32 => Num(0)
      case ReadText => Text([])
      case ReadMessage(_) => Absent
    }

    /** The fields of a message just created or cleared. */
    static function Empty(c: Code): Msg {
      Msg(seq(|c.cases|, i requires 0 <= i < |c.cases| => Cleared(c.cases[i].reader)), [])
    }

    static lemma EmptyIsDefault(c: Code, s: seq<Field>)
      requires Conforms(c, s)
      ensures Empty(c) == Default(s)
    {
      forall i | 0 <= i < |s| ensures Empty(c).vals[i] == Default(s).vals[i] {
        assert CaseConforms(c.cases[i], s[i], i, c.depth);
      }
    }

    method Clear()
      requires Conforms(code, schema)
      modifies this
      ensures Contents() == Default(schema)
    {
      EmptyIsDefault(code, schema);
      vals, unknown := Empty(code).vals, [];
    }

    method InternalParse(b: seq<Byte>) returns (ok: bool)
      requires Ready()
      modifies this
      ensures ok == ParseInto(schema, old(Contents()), b).Some?
      ensures ok ==> Contents() == ParseInto(schema, old(Contents()), b).value
      ensures Contents() == Left(schema, old(Contents()), b)
      decreases code.depth, 2
    {
      hide Schema.ParseInto, Schema.Valid, Schema.Find, Wire.ReadField, Wire.ReadTag, Schema.Left;
      var rest := b;
      while |rest| > 0
        invariant Valid(schema, Contents())
        invariant ParseInto(schema, old(Contents()), b) == ParseInto(schema, Contents(), rest)
        invariant Left(schema, old(Contents()), b) == Left(schema, Contents(), rest)
        decreases |rest|
      {
        TagStep(schema, Contents(), rest);
        var t := ReadTag(rest);
        if t.None? { return false; }
        var tag, p := t.value.0, rest[t.value.1..];
        var k := Switch(code.cases, tag / 8);
        SwitchFinds(code, schema, tag);
        if k < |code.cases| && tag % 256 == code.cases[k].tag {
          assert CaseConforms(code.cases[k], schema[k], k, code.depth);
          ok, rest := ParseField(rest, tag, p, code.cases[k]);
          if !ok { return; }
        } else {
          // handle_unusual
          UnknownStep(schema, Contents(), rest, tag, p);
          if tag == 0 || tag % 8 == 4 { UnusualTag(tag, p); return false; }
          var f := ReadField(tag, p);
          if f.None? { return false; }
          unknown, rest := unknown + [f.value.0], f.value.1;
        }
      }
      ParseDone(schema, Contents());
      ok := true;
    }

    /** The body of one case of the switch. */
    method ParseField(ghost b: seq<Byte>, ghost tag: nat, p: seq<Byte>, c: Case) returns (ok: bool, rest: seq<Byte>)
      requires Ready() && |b| > 0 && StartsWith(b, tag, p)
      requires c.slot < |schema| && c == code.cases[c.slot] && FieldTag(schema[c.slot]) == tag
      modifies this
      ensures ok ==> Continues(schema, old(Contents()), b, Contents(), rest)
      ensures !ok ==> Fails(schema, old(Contents()), b, Contents())
      decreases code.depth, 1
    {
      assert |vals| == |schema|;
      hide Schema.ParseInto, Schema.Valid, Schema.Left, Wire.ReadTag, Fails, Continues, StartsWith, ReadBytes, ReadVarint64, ToInt32, ValidUtf8;
      ghost var m := Contents();
      assert CaseConforms(c, schema[c.slot], c.slot, code.depth);
      match c.reader {
        case ReadText =>
          StringStep(schema, m, b, tag, p, c.slot);
          var f := ReadBytes(p);
          if f.None? { return false, p; }
          vals, rest := vals[c.slot := Text(f.value.0)], f.value.1;
          if !ValidUtf8(f.value.0) { return false, p; }
        case ReadBool =>
          BoolStep(schema, m, b, tag, p, c.slot);
          var f := ReadVarint64(p);
          if f.None? { return false, p; }
          vals, rest := vals[c.slot := Flag(f.value.0 != 0)], p[f.value.1..];
        case ReadMessage(sub) =>
          ok, rest := ParseMessage(b, tag, p, c.slot, sub);
          return;
        case _ =>
          NumStep(schema, m, b, tag, p, c.slot);
          var f := ReadVarint64(p);
          if f.None? { return false, p; }
          vals, rest := vals[c.slot := Num(ToInt32(f.value.0))], p[f.value.1..];
      }
      ok := true;
    }

    /** `ParseMessage` into the member, which exists from here on. */
    method ParseMessage(ghost b: seq<Byte>, ghost tag: nat, p: seq<Byte>, slot: nat, sub: Code) returns (ok: bool, rest: seq<Byte>)
      requires Ready() && |b| > 0 && StartsWith(b, tag, p)
      requires slot < |schema| && schema[slot].kind.Message? && FieldTag(schema[slot]) == tag
      requires sub.depth < code.depth && Conforms(sub, schema[slot].kind.fields)
      modifies this
      ensures ok ==> Continues(schema, old(Contents()), b, Contents(), rest)
      ensures !ok ==> Fails(schema, old(Contents()), b, Contents())
      decreases code.depth, 0
    {
      assert |vals| == |schema| && Fits(schema[slot], vals[slot]);
      ghost var m := Contents();
      ghost var fs := schema[slot].kind.fields;
      MessageStep(schema, m, b, tag, p, slot);
      EmptyIsDefault(sub, fs);
      LengthRead(schema[slot], vals[slot], p);
      var existing := if vals[slot].Present? then vals[slot].m else Empty(sub);
      assert existing == Existing(fs, vals[slot]);
      hide Schema.ParseInto, Schema.Valid, Schema.Left, Fails, Continues, StartsWith, ReadBytes, ReadVarint, LeftCut, Conforms, Fits;
      hide Existing, Default, Empty, FieldTag;
      vals := vals[slot := Present(existing)];
      assert Contents() == WithValue(m, slot, Present(existing));
      var f := ReadBytes(p);
      var size := ReadVarint(p, 5);
      if size.None? || size.value.0 > MAX_SIZE {
        return false, p;
      }
      var child := new Message(sub, fs, existing);
      ok := child.InternalParse(if f.Some? then f.value.0 else p[size.value.1..]);
      vals := vals[slot := Present(child.Contents())];
      assert Contents() == WithValue(m, slot, Present(child.Contents()));
      // a limit beyond the end of the buffer is an error, whatever the bytes before the end give
      if f.None? { return false, p; }
      rest := f.value.1;
    }

    method ParseFromString(b: seq<Byte>) returns (ok: bool)
      requires Conforms(code, schema)
      modifies this
      ensures ok == Schema.ParseFromString(schema, b).Some?
      ensures ok ==> Contents() == Schema.ParseFromString(schema, b).value
      ensures Valid(schema, Default(schema)) && Contents() == Left(schema, Default(schema), b)
    {
      DefaultValid(schema);
      Clear();
      ok := InternalParse(b);
    }

    /** Leaves the right size in the cache of every message of the tree. */
    method ByteSizeLong() returns (total: nat)
      requires Ready()
      modifies this`cache
      ensures total == |Serialize(schema, Contents())|
      ensures Cached(schema, Contents(), cache)
      decreases code.depth, 1
    {
      hide Serialize, Valid, CachedField, SizeOver, FieldSize, Printed, CaseConforms, EncodeRecords, Fits, ValidSchema;
      ghost var m := Contents();
      PrintEnd(schema, m);
      SizeInAnyOrder(schema, m, code.sizes, |schema|);
      SizesBegin(schema, m);
      FieldsFit(schema, m);
      total := 0;
      var nested := seq(|code.cases|, _ => NOTHING);
      for k := 0 to |code.sizes|
        invariant total == SizeOver(schema, m, code.sizes[..k])
        invariant |nested| == |schema| && Contents() == m
        invariant forall i | i in code.sizes[..k] :: 0 <= i < |schema| && CachedField(schema[i], m.vals[i], nested[i])
      {
        var slot := code.sizes[k];
        var n, c := SizeOfField(slot);
        SizesStep(schema, m, code.sizes[..k], slot);
        assert code.sizes[..k + 1] == code.sizes[..k] + [slot];
        total, nested := total + n, nested[slot := c];
      }
      assert code.sizes[..|code.sizes|] == code.sizes;
      total := total + |EncodeRecords(unknown)|;
      cache := Cache(total, nested);
      assert forall i: nat | i < |schema| :: i in code.sizes;
    }

    /** One step of the size calculator. */
    method SizeOfField(slot: nat) returns (n: nat, c: Cache)
      requires Ready() && slot < |schema|
      ensures n == FieldSize(schema, Contents(), slot)
      ensures Fits(schema[slot], vals[slot]) && CachedField(schema[slot], vals[slot], c)
      decreases code.depth, 0
    {
      hide Cached;
      PrintStep(schema, Contents(), slot);
      assert CaseConforms(code.cases[slot], schema[slot], slot, code.depth);
      match code.cases[slot].reader {
        case ReadMessage(sub) =>
          MessagePrints(schema[slot], vals[slot]);
          n, c := 0, NOTHING;
          if vals[slot].Present? {
            var child := new Message(sub, schema[slot].kind.fields, vals[slot].m);
            n := child.ByteSizeLong();
            n, c := 1 + LengthDelimitedSize(n), child.cache;
          }
        case _ =>
          ScalarPrints(schema[slot], vals[slot]);
          n, c := ScalarSize(vals[slot]), NOTHING;
      }
    }

    /** Prints with the sizes in the cache. */
    method InternalSerialize() returns (target: seq<Byte>)
      requires Ready() && Cached(schema, Contents(), cache)
      ensures target == Serialize(schema, Contents())
      decreases code.depth, 1
    {
      hide CaseConforms, Printed, FieldBytes, Serialize, ValidSchema, EncodeRecords, Lists, Valid, Cached;
      ghost var m := Contents();
      PrintEnd(schema, m);
      target := [];
      for k := 0 to |code.writes|
        invariant target == Printed(schema, m, k)
      {
        PrintStep(schema, m, k);
        var b := BytesOfField(code.writes[k].0, code.writes[k].1);
        target := target + b;
      }
      target := target + EncodeRecords(unknown);
    }

    /** One step of the printer; a submessage goes behind its cached size. */
    method BytesOfField(number: nat, slot: nat) returns (b: seq<Byte>)
      requires Ready() && Cached(schema, Contents(), cache) && slot < |schema| && number == schema[slot].num
      ensures Fits(schema[slot], vals[slot]) && b == FieldBytes(schema[slot], vals[slot])
      decreases code.depth, 0
    {
      hide Serialize;
      PrintStep(schema, Contents(), slot);
      assert CaseConforms(code.cases[slot], schema[slot], slot, code.depth);
      assert CachedField(schema[slot], vals[slot], cache.nested[slot]);
      match code.cases[slot].reader {
        case ReadMessage(sub) =>
          MessagePrints(schema[slot], vals[slot]);
          b := [];
          if vals[slot].Present? {
            var child := new Message(sub, schema[slot].kind.fields, vals[slot].m);
            child.cache := cache.nested[slot];
            var body := child.InternalSerialize();
            b := WriteMessage(number, child.cache.size, body);
          }
        case _ =>
          ScalarPrints(schema[slot], vals[slot]);
          b := PrintScalar(number, vals[slot]);
      }
    }

    method SerializeToString() returns (r: Option<seq<Byte>>)
      requires Ready()
      modifies this`cache
      ensures r == Schema.SerializeToString(schema, Contents())
    {
      var size := ByteSizeLong();
      if size > MAX_SIZE { return None; }
      var target := InternalSerialize();
      r := Some(target);
    }

    method MergeImpl(from: Message)
      requires from != this && code == from.code && schema == from.schema
      requires Ready() && from.Ready()
      modifies this
      ensures Contents() == Merge(schema, old(Contents()), from.Contents())
      decreases code.depth, 1
    {
      ghost var a, b := Contents(), from.Contents();
      ListsOnce(code.sizes, |schema|);
      for k := 0 to |code.sizes|
        invariant |vals| == |schema| && unknown == a.unknown
        invariant forall i | 0 <= i < |schema| ::
                    vals[i] == if i in code.sizes[..k] then MergeValue(schema[i], a.vals[i], b.vals[i]) else a.vals[i]
      {
        var slot := code.sizes[k];
        MergeField(slot, from);
        assert code.sizes[..k + 1] == code.sizes[..k] + [slot];
      }
      assert code.sizes[..|code.sizes|] == code.sizes;
      unknown := unknown + from.unknown;
      assert vals == Merge(schema, a, b).vals;
    }

    /** One step of the merge. */
    method MergeField(slot: nat, from: Message)
      requires from != this && code == from.code && schema == from.schema
      requires Conforms(code, schema) && slot < |vals| == |schema| == |from.vals|
      requires Fits(schema[slot], vals[slot]) && Fits(schema[slot], from.vals[slot])
      modifies this`vals
      ensures vals == old(vals)[slot := MergeValue(schema[slot], old(vals)[slot], from.vals[slot])]
      decreases code.depth, 0
    {
      assert CaseConforms(code.cases[slot], schema[slot], slot, code.depth);
      match code.cases[slot].reader {
        case ReadMessage(sub) =>
          if from.vals[slot].Present? {
            ghost var fs := schema[slot].kind.fields;
            EmptyIsDefault(sub, fs);
            DefaultValid(fs);
            var child := new Message(sub, fs, if vals[slot].Present? then vals[slot].m else Empty(sub));
            var other := new Message(sub, fs, from.vals[slot].m);
            child.MergeImpl(other);
            vals := vals[slot := Present(child.Contents())];
          }
        case _ => vals := vals[slot := MergeScalar(vals[slot], from.vals[slot])];
      }
    }
  }
}
