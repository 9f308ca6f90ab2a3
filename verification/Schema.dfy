/**
  What a .proto schema means for any message type: values, parsing, printing and merging.
  The generated classes of GeneratedCode are proved against these functions, and the laws
  here (reading undoes writing, concatenation is merging, printing gives a normal form)
  hold for every schema and every nesting of messages.
*/
module Schema {
  import opened Prelude
  import opened Utf8
  import opened Wire

  datatype Kind = Enum | Bool | Int32 | Str | Message(fields: seq<Field>)
  datatype Field = Field(num: nat, kind: Kind)

  datatype Value =
    | Num(n: int)
    | Flag(b: bool)
    | Text(s: seq<Byte>)
    | Absent
    | Present(m: Msg)

  /** A message in memory: one value per schema field, and the unknown records in arrival order. */
  datatype Msg = Msg(vals: seq<Value>, unknown: seq<Record>)

  // ---------- schemas and the messages that fit them ----------

  function KindWire(k: Kind): nat {
    match k
    case Enum => 0
    case Bool => 0
    case Int32 => 0
    case Str => 2
    case Message(_) => 2
  }

  function FieldTag(f: Field): nat {
    f.num * 8 + KindWire(f.kind)
  }

  ghost predicate ValidField(f: Field)
    decreases f
  {
    && 1 <= f.num < TWO29
    && (match f case Field(_, k) => k.Message? ==> ValidSchema(k.fields))
  }

  ghost predicate ValidSchema(s: seq<Field>)
    decreases s
  {
    && (forall i | 0 <= i < |s| :: ValidField(s[i]))
    && (forall i, j | 0 <= i < j < |s| :: s[i].num != s[j].num)
  }

  predicate IsInt32(n: int) {
    -0x8000_0000 <= n < 0x8000_0000
  }

  /** The low 32 bits of a varint read as a two's complement integer. */
  function ToInt32(v: nat): (n: int)
    ensures IsInt32(n)
  {
    var low := v % TWO32;
    if low < 0x8000_0000 then low else low - TWO32
  }

  /** A signed value as the 64-bit varint that carries it. */
  function FromInt32(n: int): (v: nat)
    requires IsInt32(n)
    ensures v < TWO64
  {
    if n < 0 then n + TWO64 else n
  }

  /** The first field from position i on whose tag is the given one, or the schema's length. */
  function FindFrom(s: seq<Field>, tag: nat, i: nat): (r: nat)
    requires i <= |s|
    ensures i <= r <= |s|
    ensures r < |s| ==> FieldTag(s[r]) == tag
    ensures forall j | i <= j < r :: FieldTag(s[j]) != tag
    decreases |s| - i
  {
    if i == |s| || FieldTag(s[i]) == tag then i else FindFrom(s, tag, i + 1)
  }

  function Find(s: seq<Field>, tag: nat): (r: nat)
    ensures r <= |s|
    ensures r < |s| ==> FieldTag(s[r]) == tag
    ensures forall j | 0 <= j < r :: FieldTag(s[j]) != tag
  {
    FindFrom(s, tag, 0)
  }

  lemma FindIs(s: seq<Field>, i: nat)
    requires ValidSchema(s) && i < |s|
    ensures Find(s, FieldTag(s[i])) == i
  {
    var j := Find(s, FieldTag(s[i]));
    if j < i {
      TagParts(s[i].num, KindWire(s[i].kind));
      TagParts(s[j].num, KindWire(s[j].kind));
    }
  }

  ghost predicate Fits(f: Field, v: Value)
    decreases f
  {
    match f.kind
    case Enum => v.Num? && IsInt32(v.n)
    case Int32 => v.Num? && IsInt32(v.n)
    case Bool => v.Flag?
    case Str => v.Text? && ValidUtf8(v.s)
    case Message(fs) => v.Absent? || (v.Present? && Valid(fs, v.m))
  }

  /** A message a program can hold: values of the right kinds, and unknown records the schema does not know. */
  ghost predicate Valid(s: seq<Field>, m: Msg)
    decreases s
  {
    && |m.vals| == |s|
    && (forall i | 0 <= i < |s| :: Fits(s[i], m.vals[i]))
    && (forall i | 0 <= i < |m.unknown| :: ValidRecord(m.unknown[i]) && Find(s, TagOf(m.unknown[i])) == |s|)
  }

  function DefaultValue(k: Kind): Value {
    match k
    case Enum => Num(0)
    case Int32 => Num(0)
    case Bool => Flag(false)
    case Str => Text([])
    case Message(_) => Absent
  }

  function Default(s: seq<Field>): Msg {
    Msg(seq(|s|, i requires 0 <= i < |s| => DefaultValue(s[i].kind)), [])
  }

  lemma DefaultValid(s: seq<Field>)
    ensures Valid(s, Default(s))
  {
  }

  /** The submessage a parser writes into: the one already there, or a new one. */
  function Existing(fs: seq<Field>, v: Value): Msg {
    if v.Present? then v.m else Default(fs)
  }

  // ---------- parsing ----------

  /** The effect of one record on the message parsed so far; `None` when the parser gives up. */
  ghost function Apply(s: seq<Field>, m: Msg, r: Record): (o: Option<Msg>)
    requires Valid(s, m) && ValidRecord(r)
    ensures o.Some? ==> Valid(s, o.value)
    decreases s, 0, 0
  {
    var i := Find(s, TagOf(r));
    if i == |s| then Some(m.(unknown := m.unknown + [r]))
    else
      var v :- ApplyValue(s[i], m.vals[i], r);
      Some(m.(vals := m.vals[i := v]))
  }

  ghost function ApplyValue(f: Field, v: Value, r: Record): (o: Option<Value>)
    requires Fits(f, v) && ValidRecord(r) && WireType(r) == KindWire(f.kind)
    ensures o.Some? ==> Fits(f, o.value)
    decreases f, 0, 0
  {
    match f.kind
    case Enum => Some(Num(ToInt32(r.v)))
    case Int32 => Some(Num(ToInt32(r.v)))
    case Bool => Some(Flag(r.v != 0))
    case Str => if ValidUtf8(r.b) then Some(Text(r.b)) else None
    case Message(fs) =>
      DefaultValid(fs);
      var m :- ParseInto(fs, Existing(fs, v), r.b);
      Some(Present(m))
  }

  ghost function ApplyAll(s: seq<Field>, m: Msg, rs: seq<Record>): (o: Option<Msg>)
    requires Valid(s, m) && ValidRecords(rs)
    ensures o.Some? ==> Valid(s, o.value)
    decreases s, 1, |rs|
  {
    if |rs| == 0 then Some(m)
    else
      var next :- Apply(s, m, rs[0]);
      ApplyAll(s, next, rs[1..])
  }

  /** Parsing a buffer into an existing message, as `MergeFromString` does. */
  ghost function ParseInto(s: seq<Field>, m: Msg, b: seq<Byte>): (o: Option<Msg>)
    requires Valid(s, m)
    ensures o.Some? ==> Valid(s, o.value)
    decreases s, 2, 0
  {
    ParsedValid(b);
    var rs :- ParseRecords(b);
    ApplyAll(s, m, rs)
  }

  /** What a message holds when the parse loop stops: everything, or what came before a record that
      could not be read. Of that record a text that is not UTF-8 stays in its member, and a
      submessage stays with what its own parse left, also of bytes that are cut off. */
  ghost function Left(s: seq<Field>, m: Msg, b: seq<Byte>): Msg
    requires Valid(s, m)
    decreases s, 1, |b|
  {
    if |b| == 0 || ReadTag(b).None? then m
    else
      var (tag, n) := ReadTag(b).value;
      var i, f := Find(s, tag), ReadField(tag, b[n..]);
      if f.None? then
        if i < |s| && s[i].kind.Message? then
          m.(vals := m.vals[i := LeftCut(s[i], m.vals[i], b[n..])])
        else m
      else
        ReadFieldValid(tag, b[n..]);
        var r := f.value.0;
        var o := Apply(s, m, r);
        if o.Some? then Left(s, o.value, f.value.1)
        else m.(vals := m.vals[i := LeftValue(s[i], m.vals[i], r)])
  }

  /** A submessage whose bytes are cut off by the end of the buffer: its parse takes those there are. */
  ghost function LeftCut(f: Field, v: Value, p: seq<Byte>): Value
    requires Fits(f, v) && f.kind.Message?
    decreases f, 0, 0
  {
    match f.kind
    case Message(fs) =>
      var size := ReadVarint(p, 5);
      DefaultValid(fs);
      Present(if size.None? || size.value.0 > MAX_SIZE then Existing(fs, v) else Left(fs, Existing(fs, v), p[size.value.1..]))
  }

  ghost function LeftValue(f: Field, v: Value, r: Record): Value
    requires Fits(f, v) && WireType(r) == KindWire(f.kind)
    decreases f, 0, 0
  {
    match f.kind
    case Str => Text(r.b)
    case Message(fs) =>
      DefaultValid(fs);
      Present(Left(fs, Existing(fs, v), r.b))
    case _ => v
  }

  // ---------- printing ----------

  /** The records that print one field: none for a default value. */
  ghost function ValueRecords(f: Field, v: Value): seq<Record>
    requires Fits(f, v)
    decreases f, 0, 0
  {
    match f.kind
    case Enum => if v.n == 0 then [] else [Varint(f.num, FromInt32(v.n))]
    case Int32 => if v.n == 0 then [] else [Varint(f.num, FromInt32(v.n))]
    case Bool => if v.b then [Varint(f.num, 1)] else []
    case Str => if |v.s| == 0 then [] else [Len(f.num, v.s)]
    case Message(fs) => if v.Absent? then [] else [Len(f.num, Serialize(fs, v.m))]
  }

  /** The records of the first n fields, in schema order. */
  ghost function FieldRecords(s: seq<Field>, m: Msg, n: nat): seq<Record>
    requires Valid(s, m) && n <= |s|
    decreases s, 1, n
  {
    if n == 0 then [] else FieldRecords(s, m, n - 1) + ValueRecords(s[n - 1], m.vals[n - 1])
  }

  ghost function ToRecords(s: seq<Field>, m: Msg): seq<Record>
    requires Valid(s, m)
    decreases s, 2, 0
  {
    FieldRecords(s, m, |s|) + m.unknown
  }

  ghost function Serialize(s: seq<Field>, m: Msg): seq<Byte>
    requires Valid(s, m)
    decreases s, 3, 0
  {
    EncodeRecords(ToRecords(s, m))
  }

  /** `SerializeToString` refuses what would not fit in 2 GiB. */
  ghost function SerializeToString(s: seq<Field>, m: Msg): Option<seq<Byte>>
    requires Valid(s, m)
  {
    if |Serialize(s, m)| <= MAX_SIZE then Some(Serialize(s, m)) else None
  }

  /** `ParseFromString` clears the message first. */
  ghost function ParseFromString(s: seq<Field>, b: seq<Byte>): (o: Option<Msg>)
    ensures o.Some? ==> Valid(s, o.value)
  {
    DefaultValid(s);
    ParseInto(s, Default(s), b)
  }

  // ---------- merging ----------

  ghost function MergeValue(f: Field, a: Value, b: Value): (v: Value)
    requires Fits(f, a) && Fits(f, b)
    ensures Fits(f, v)
    decreases f, 0
  {
    match f.kind
    case Enum => if b.n != 0 then b else a
    case Int32 => if b.n != 0 then b else a
    case Bool => if b.b then b else a
    case Str => if |b.s| != 0 then b else a
    case Message(fs) =>
      DefaultValid(fs);
      if b.Absent? then a else Present(Merge(fs, Existing(fs, a), b.m))
  }

  ghost function Merge(s: seq<Field>, a: Msg, b: Msg): (m: Msg)
    requires Valid(s, a) && Valid(s, b)
    ensures Valid(s, m)
    decreases s, 1
  {
    Msg(seq(|s|, i requires 0 <= i < |s| => MergeValue(s[i], a.vals[i], b.vals[i])), a.unknown + b.unknown)
  }

  // ---------- parsing what was printed merges it ----------

  lemma {:induction false} ApplyConcat(s: seq<Field>, m: Msg, x: seq<Record>, y: seq<Record>)
    requires Valid(s, m) && ValidRecords(x) && ValidRecords(y)
    ensures ValidRecords(x + y)
    ensures ApplyAll(s, m, x).None? ==> ApplyAll(s, m, x + y).None?
    ensures ApplyAll(s, m, x).Some? ==> ApplyAll(s, m, x + y) == ApplyAll(s, ApplyAll(s, m, x).value, y)
    decreases |x|
  {
    if |x| == 0 {
      assert x + y == y;
    } else {
      assert (x + y)[1..] == x[1..] + y;
      var next := Apply(s, m, x[0]);
      if next.Some? { ApplyConcat(s, next.value, x[1..], y); }
    }
  }

  lemma {:induction false} ApplyUnknown(s: seq<Field>, m: Msg, u: seq<Record>)
    requires Valid(s, m) && ValidRecords(u)
    requires forall i | 0 <= i < |u| :: Find(s, TagOf(u[i])) == |s|
    ensures ApplyAll(s, m, u) == Some(m.(unknown := m.unknown + u))
    decreases |u|
  {
    if |u| == 0 {
      assert m.unknown + u == m.unknown;
    } else {
      var next := m.(unknown := m.unknown + [u[0]]);
      assert Apply(s, m, u[0]) == Some(next);
      ApplyUnknown(s, next, u[1..]);
      assert m.unknown + [u[0]] + u[1..] == m.unknown + u;
    }
  }

  /** The message after the first n fields of b were merged into a. */
  ghost function MergedUpTo(s: seq<Field>, a: Msg, b: Msg, n: nat): (m: Msg)
    requires Valid(s, a) && Valid(s, b) && n <= |s|
    ensures Valid(s, m)
  {
    Msg(seq(|s|, i requires 0 <= i < |s| => if i < n then MergeValue(s[i], a.vals[i], b.vals[i]) else a.vals[i]), a.unknown)
  }

  lemma AppliedNone(s: seq<Field>, a: Msg)
    requires Valid(s, a)
    ensures ValidRecords([]) && ApplyAll(s, a, []) == Some(a)
  {
  }

  lemma {:induction false} ApplyFields(s: seq<Field>, a: Msg, b: Msg, n: nat)
    requires ValidSchema(s) && Valid(s, a) && Valid(s, b) && n <= |s|
    requires |EncodeRecords(FieldRecords(s, b, n))| <= MAX_SIZE
    ensures ValidRecords(FieldRecords(s, b, n))
    ensures ApplyAll(s, a, FieldRecords(s, b, n)) == Some(MergedUpTo(s, a, b, n))
    decreases s, 1, n
  {
    hide EncodeRecords, Apply, ApplyAll, MergeValue, ValueRecords, ValidRecords, ValidSchema;
    if n == 0 {
      assert MergedUpTo(s, a, b, 0).vals == a.vals;
      AppliedNone(s, a);
    } else {
      var i := n - 1;
      var x, y := FieldRecords(s, b, i), ValueRecords(s[i], b.vals[i]);
      EncodeConcat(x, y);
      ApplyFields(s, a, b, i);
      ApplyField(s, MergedUpTo(s, a, b, i), i, b.vals[i]);
      ApplyConcat(s, a, x, y);
      assert MergedUpTo(s, a, b, i).vals[i := MergeValue(s[i], a.vals[i], b.vals[i])] == MergedUpTo(s, a, b, n).vals;
    }
  }

  /** The records of one field, applied to any message, merge that field's value and touch nothing else. */
  lemma {:induction false} ApplyField(s: seq<Field>, m: Msg, i: nat, v: Value)
    requires ValidSchema(s) && Valid(s, m) && i < |s| && Fits(s[i], v)
    requires |EncodeRecords(ValueRecords(s[i], v))| <= MAX_SIZE
    ensures ValidRecords(ValueRecords(s[i], v))
    ensures ApplyAll(s, m, ValueRecords(s[i], v)) == Some(m.(vals := m.vals[i := MergeValue(s[i], m.vals[i], v)]))
    decreases s, 0, 0
  {
    var rs := ValueRecords(s[i], v);
    if |rs| == 0 {
      assert m.vals[i := m.vals[i]] == m.vals;
    } else {
      var r := rs[0];
      assert rs == [r] && EncodeRecords(rs) == EncodeRecord(r) + EncodeRecords([]);
      FindIs(s, i);
      ApplyOne(s[i], m.vals[i], v);
    }
  }

  lemma Int32RoundTrip(n: int)
    requires IsInt32(n)
    ensures ToInt32(FromInt32(n)) == n && FromInt32(n) < TWO64
  {
  }

  lemma SizeInside(num: nat, b: seq<Byte>)
    ensures |b| <= |EncodeRecord(Len(num, b))|
  {
  }

  lemma {:induction false} ApplyOne(f: Field, was: Value, v: Value)
    requires ValidField(f) && Fits(f, was) && Fits(f, v)
    requires |ValueRecords(f, v)| > 0 && |EncodeRecord(ValueRecords(f, v)[0])| <= MAX_SIZE
    ensures ValidRecord(ValueRecords(f, v)[0])
    ensures ApplyValue(f, was, ValueRecords(f, v)[0]) == Some(MergeValue(f, was, v))
    decreases f, 0, 0
  {
    hide ToInt32, FromInt32, EncodeRecords, Serialize, Merge, ParseInto;
    if f.kind.Message? {
      DefaultValid(f.kind.fields);
      SizeInside(f.num, Serialize(f.kind.fields, v.m));
      ParsePrinted(f.kind.fields, Existing(f.kind.fields, was), v.m);
    } else if f.kind.Str? {
      SizeInside(f.num, v.s);
    } else if !f.kind.Bool? {
      Int32RoundTrip(v.n);
    }
  }

  /** "Last One Wins": parsing a printed message into any message is exactly merging it. */
  lemma {:induction false} ParsePrinted(s: seq<Field>, a: Msg, b: Msg)
    requires ValidSchema(s) && Valid(s, a) && Valid(s, b)
    requires |Serialize(s, b)| <= MAX_SIZE
    ensures ParseInto(s, a, Serialize(s, b)) == Some(Merge(s, a, b))
    decreases s, 2, 0
  {
    var x := FieldRecords(s, b, |s|);
    EncodeConcat(x, b.unknown);
    ApplyFields(s, a, b, |s|);
    RecordsRoundTrip(x + b.unknown);
    ApplyConcat(s, a, x, b.unknown);
    ApplyUnknown(s, MergedUpTo(s, a, b, |s|), b.unknown);
    assert MergedUpTo(s, a, b, |s|).vals == Merge(s, a, b).vals;
  }

  lemma {:induction false} MergeIntoDefaultValue(f: Field, v: Value)
    requires Fits(f, v)
    ensures Fits(f, DefaultValue(f.kind))
    ensures MergeValue(f, DefaultValue(f.kind), v) == v
    decreases f, 0
  {
    if v.Present? { MergeIntoDefault(f.kind.fields, v.m); }
  }

  lemma {:induction false} MergeIntoDefault(s: seq<Field>, m: Msg)
    requires Valid(s, m)
    ensures Valid(s, Default(s)) && Merge(s, Default(s), m) == m
    decreases s, 1
  {
    DefaultValid(s);
    forall i | 0 <= i < |s| ensures MergeValue(s[i], Default(s).vals[i], m.vals[i]) == m.vals[i] {
      MergeIntoDefaultValue(s[i], m.vals[i]);
    }
    assert Merge(s, Default(s), m).vals == m.vals;
    assert [] + m.unknown == m.unknown;
  }

  /** What the printer accepts, the parser gives back unchanged. */
  lemma {:induction false} ParseUndoesSerialize(s: seq<Field>, m: Msg)
    requires ValidSchema(s) && Valid(s, m) && SerializeToString(s, m).Some?
    ensures ParseFromString(s, SerializeToString(s, m).value) == Some(m)
  {
    DefaultValid(s);
    ParsePrinted(s, Default(s), m);
    MergeIntoDefault(s, m);
  }

  /** After a parse that succeeds the message holds its result. */
  lemma {:induction false} LeftAfterSuccess(s: seq<Field>, m: Msg, b: seq<Byte>)
    requires Valid(s, m) && ParseInto(s, m, b).Some?
    ensures Left(s, m, b) == ParseInto(s, m, b).value
    decreases |b|
  {
    if |b| > 0 {
      var (r, rest) := ReadRecord(b).value;
      ReadRecordValid(b);
      ParsedValid(b);
      ParsedValid(rest);
      var tail := ParseRecords(rest).value;
      assert ParseRecords(b).value == [r] + tail && ([r] + tail)[1..] == tail;
      LeftAfterSuccess(s, Apply(s, m, r).value, rest);
    }
  }

  /** A value of the right kind, whatever its contents. */
  ghost predicate HasKind(f: Field, v: Value) {
    match f.kind
    case Enum => v.Num?
    case Int32 => v.Num?
    case Bool => v.Flag?
    case Str => v.Text?
    case Message(_) => v.Absent? || v.Present?
  }

  ghost predicate HasKinds(s: seq<Field>, m: Msg) {
    |m.vals| == |s| && forall i | 0 <= i < |s| :: HasKind(s[i], m.vals[i])
  }

  lemma KindsOfValid(s: seq<Field>, m: Msg)
    requires Valid(s, m)
    ensures HasKinds(s, m)
  {
    forall i | 0 <= i < |s| ensures HasKind(s[i], m.vals[i]) { assert Fits(s[i], m.vals[i]); }
  }

  /** However a parse stops, each member holds a value of its kind. */
  lemma {:induction false} LeftHasKinds(s: seq<Field>, m: Msg, b: seq<Byte>)
    requires Valid(s, m)
    ensures HasKinds(s, Left(s, m, b))
    decreases |b|
  {
    KindsOfValid(s, m);
    if |b| > 0 && ReadRecord(b).Some? {
      var (r, rest) := ReadRecord(b).value;
      ReadRecordValid(b);
      if Apply(s, m, r).Some? { LeftHasKinds(s, Apply(s, m, r).value, rest); }
    }
  }

  /** Parsing a buffer and then another one into the result is parsing their concatenation. */
  lemma {:induction false} ParseIntoConcat(s: seq<Field>, m: Msg, x: seq<Byte>, y: seq<Byte>)
    requires Valid(s, m) && ParseInto(s, m, x).Some?
    ensures ParseInto(s, m, x + y) == ParseInto(s, ParseInto(s, m, x).value, y)
  {
    ParsedValid(x);
    ParsedValid(y);
    ParseConcat(x, y);
    if ParseRecords(y).Some? {
      ApplyConcat(s, m, ParseRecords(x).value, ParseRecords(y).value);
    }
  }

  /** Any parsable buffer followed by a printed message parses to the merge of the two. */
  lemma {:induction false} ConcatenationMerges(s: seq<Field>, x: seq<Byte>, m: Msg)
    requires ValidSchema(s) && Valid(s, m) && SerializeToString(s, m).Some?
    requires ParseFromString(s, x).Some?
    ensures ParseFromString(s, x + SerializeToString(s, m).value) == Some(Merge(s, ParseFromString(s, x).value, m))
  {
    DefaultValid(s);
    ParseIntoConcat(s, Default(s), x, Serialize(s, m));
    ParsePrinted(s, ParseFromString(s, x).value, m);
  }

  /** Parse then print: the canonical form of a buffer, when it parses and the result is printable. */
  ghost function Normalize(s: seq<Field>, b: seq<Byte>): Option<seq<Byte>> {
    var m :- ParseFromString(s, b);
    SerializeToString(s, m)
  }

  /** However its records were ordered or repeated, a buffer's normal form has the same meaning and is stable. */
  lemma {:induction false} NormalForm(s: seq<Field>, b: seq<Byte>)
    requires ValidSchema(s) && Normalize(s, b).Some?
    ensures ParseFromString(s, Normalize(s, b).value) == ParseFromString(s, b)
    ensures Normalize(s, Normalize(s, b).value) == Normalize(s, b)
  {
    ParseUndoesSerialize(s, ParseFromString(s, b).value);
  }

  lemma {:induction false} MergeValueAssociative(f: Field, a: Value, b: Value, c: Value)
    requires Fits(f, a) && Fits(f, b) && Fits(f, c)
    ensures MergeValue(f, MergeValue(f, a, b), c) == MergeValue(f, a, MergeValue(f, b, c))
    decreases f, 0
  {
    if f.kind.Message? && b.Present? && c.Present? {
      var fs := f.kind.fields;
      DefaultValid(fs);
      MergeAssociative(fs, Existing(fs, a), b.m, c.m);
    } else if f.kind.Message? && c.Present? {
      MergeIntoDefault(f.kind.fields, c.m);
    }
  }

  /** Merging is associative, so how a stream of messages is grouped does not matter. */
  lemma {:induction false} MergeAssociative(s: seq<Field>, a: Msg, b: Msg, c: Msg)
    requires Valid(s, a) && Valid(s, b) && Valid(s, c)
    ensures Merge(s, Merge(s, a, b), c) == Merge(s, a, Merge(s, b, c))
    decreases s, 1
  {
    forall i | 0 <= i < |s| {
      MergeValueAssociative(s[i], a.vals[i], b.vals[i], c.vals[i]);
    }
    assert Merge(s, Merge(s, a, b), c).vals == Merge(s, a, Merge(s, b, c)).vals;
    assert a.unknown + b.unknown + c.unknown == a.unknown + (b.unknown + c.unknown);
  }
}
