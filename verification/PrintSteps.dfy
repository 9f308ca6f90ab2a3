/** What generated printers and size calculators write and count for one field. */
module PrintSteps {
  import opened Prelude
  import opened Wire
  import opened Schema

  function WriteString(num: nat, s: seq<Byte>): seq<Byte> {
    TagBytes(num, 2) + VarintBytes(|s|) + s
  }

  /** Enums and int32 share one rule: the value sign-extended to 64 bits. */
  function WriteInt32(num: nat, n: int): seq<Byte>
    requires IsInt32(n)
  {
    TagBytes(num, 0) + VarintBytes(FromInt32(n))
  }

  function WriteBool(num: nat): seq<Byte> {
    TagBytes(num, 0) + [1]
  }

  /** A submessage is written behind the size the size calculator found for it. */
  function WriteMessage(num: nat, size: nat, body: seq<Byte>): seq<Byte> {
    TagBytes(num, 2) + VarintBytes(size) + body
  }

  function LengthDelimitedSize(n: nat): nat {
    VarintSize(n) + n
  }

  /** A negative value always takes ten bytes. */
  function Int32Size(n: int): nat {
    if n < 0 then 10 else VarintSize(n)
  }

  predicate IsScalar(v: Value) {
    v.Text? || v.Flag? || (v.Num? && IsInt32(v.n))
  }

  /** The printer's code for a field that is not a message: nothing for a default value. */
  function PrintScalar(num: nat, v: Value): seq<Byte>
    requires IsScalar(v)
  {
    match v
    case Text(s) => if |s| != 0 then WriteString(num, s) else []
    case Num(n) => if n != 0 then WriteInt32(num, n) else []
    case Flag(b) => if b then WriteBool(num) else []
  }

  /** The size calculator's code for the same field: one byte of tag, then the payload. */
  function ScalarSize(v: Value): nat
    requires IsScalar(v)
  {
    match v
    case Text(s) => if |s| != 0 then 1 + LengthDelimitedSize(|s|) else 0
    case Num(n) => if n != 0 then 1 + Int32Size(n) else 0
    case Flag(b) => if b then 1 + 1 else 0
  }

  /** The merge code for the same field: a default value changes nothing. */
  function MergeScalar(a: Value, b: Value): Value
    requires IsScalar(b)
  {
    match b
    case Text(s) => if |s| != 0 then b else a
    case Num(n) => if n != 0 then b else a
    case Flag(x) => if x then b else a
  }

  /** The bytes of one field, and of the first n fields. */
  ghost function FieldBytes(f: Field, v: Value): seq<Byte>
    requires Fits(f, v)
  {
    EncodeRecords(ValueRecords(f, v))
  }

  ghost function Printed(s: seq<Field>, m: Msg, n: nat): seq<Byte>
    requires Valid(s, m) && n <= |s|
  {
    EncodeRecords(FieldRecords(s, m, n))
  }

  lemma PrintStep(s: seq<Field>, m: Msg, i: nat)
    requires Valid(s, m) && i < |s|
    ensures Fits(s[i], m.vals[i])
    ensures Printed(s, m, i + 1) == Printed(s, m, i) + FieldBytes(s[i], m.vals[i])
  {
    EncodeConcat(FieldRecords(s, m, i), ValueRecords(s[i], m.vals[i]));
  }

  lemma PrintEnd(s: seq<Field>, m: Msg)
    requires Valid(s, m)
    ensures Printed(s, m, 0) == []
    ensures Serialize(s, m) == Printed(s, m, |s|) + EncodeRecords(m.unknown)
  {
    EncodeConcat(FieldRecords(s, m, |s|), m.unknown);
  }

  lemma EncodeOne(r: Record)
    ensures EncodeRecords([r]) == EncodeRecord(r)
  {
    assert EncodeRecord(r) + [] == EncodeRecord(r);
  }

  lemma ShortTag(num: nat, wireType: nat)
    requires num < 16 && wireType < 8
    ensures |TagBytes(num, wireType)| == 1
  {
  }

  lemma Int32Length(n: int)
    requires IsInt32(n)
    ensures |VarintBytes(FromInt32(n))| == Int32Size(n)
  {
    VarintLength(FromInt32(n));
    if n < 0 {
      Powers();
      VarintLengthBound(FromInt32(n), 10);
      LongVarint(FromInt32(n), 10);
    }
  }

  lemma {:induction false} LongVarint(v: nat, n: nat)
    requires n > 0 && v >= Pow128(n - 1)
    ensures VarintSize(v) >= n
    decreases n
  {
    if n > 1 {
      assert Pow128(n - 1) == 128 * Pow128(n - 2);
      LongVarint(v / 128, n - 1);
    }
  }

  lemma ScalarPrints(f: Field, v: Value)
    requires Fits(f, v) && f.num < 16 && !f.kind.Message?
    ensures IsScalar(v)
    ensures FieldBytes(f, v) == PrintScalar(f.num, v)
    ensures |FieldBytes(f, v)| == ScalarSize(v)
  {
    ShortTag(f.num, KindWire(f.kind));
    match v
    case Text(s) =>
      EncodeOne(Len(f.num, s));
      VarintLength(|s|);
      assert WriteString(f.num, s) == TagBytes(f.num, 2) + (VarintBytes(|s|) + s);
    case Num(n) =>
      EncodeOne(Varint(f.num, FromInt32(n)));
      Int32Length(n);
    case Flag(_) => EncodeOne(Varint(f.num, 1));
  }

  lemma MessagePrints(f: Field, v: Value)
    requires Fits(f, v) && f.num < 16 && f.kind.Message?
    ensures v.Absent? ==> FieldBytes(f, v) == []
    ensures v.Present? ==>
              var body := Serialize(f.kind.fields, v.m);
              && FieldBytes(f, v) == WriteMessage(f.num, |body|, body)
              && |FieldBytes(f, v)| == 1 + LengthDelimitedSize(|body|)
  {
    if v.Present? {
      var body := Serialize(f.kind.fields, v.m);
      EncodeOne(Len(f.num, body));
      VarintLength(|body|);
      ShortTag(f.num, 2);
      assert WriteMessage(f.num, |body|, body) == TagBytes(f.num, 2) + (VarintBytes(|body|) + body);
    }
  }

  // ---------- sizes do not depend on the order they are added up ----------

  ghost function FieldSize(s: seq<Field>, m: Msg, i: nat): nat
    requires Valid(s, m) && i < |s|
  {
    PrintStep(s, m, i);
    |FieldBytes(s[i], m.vals[i])|
  }

  /** The bytes of the fields listed by their positions. */
  ghost function SizeOver(s: seq<Field>, m: Msg, order: seq<nat>): nat
    requires Valid(s, m) && forall k | 0 <= k < |order| :: order[k] < |s|
  {
    if |order| == 0 then 0
    else SizeOver(s, m, order[..|order| - 1]) + FieldSize(s, m, order[|order| - 1])
  }

  lemma SizesBegin(s: seq<Field>, m: Msg)
    requires Valid(s, m)
    ensures SizeOver(s, m, []) == 0
  {
  }

  lemma SizesStep(s: seq<Field>, m: Msg, order: seq<nat>, slot: nat)
    requires Valid(s, m) && slot < |s| && forall k | 0 <= k < |order| :: order[k] < |s|
    ensures SizeOver(s, m, order + [slot]) == SizeOver(s, m, order) + FieldSize(s, m, slot)
  {
    assert (order + [slot])[..|order|] == order;
  }

  lemma FieldsFit(s: seq<Field>, m: Msg)
    requires Valid(s, m)
    ensures |m.vals| == |s| && forall i | 0 <= i < |s| :: Fits(s[i], m.vals[i])
  {
  }

  lemma {:induction false} SizeOverRemove(s: seq<Field>, m: Msg, order: seq<nat>, k: nat)
    requires Valid(s, m) && forall j | 0 <= j < |order| :: order[j] < |s|
    requires k < |order|
    ensures SizeOver(s, m, order) == SizeOver(s, m, order[..k] + order[k + 1..]) + FieldSize(s, m, order[k])
    decreases |order|
  {
    var last := |order| - 1;
    if k < last {
      SizeOverRemove(s, m, order[..last], k);
      var rest := order[..k] + order[k + 1..];
      assert rest[..|rest| - 1] == order[..last][..k] + order[..last][k + 1..];
      assert rest[|rest| - 1] == order[last];
    } else {
      assert order[..k] + order[k + 1..] == order[..last];
    }
  }

  /** The order lists every position below n, and has no room for anything else. */
  predicate Lists(order: seq<nat>, n: nat) {
    |order| == n && forall i | 0 <= i < n :: i in order
  }

  /** Taking the last position out of such an order leaves one for the positions below it. */
  lemma RemoveTop(order: seq<nat>, n: nat) returns (k: nat)
    requires Lists(order, n + 1)
    ensures k < |order| && order[k] == n
    ensures Lists(order[..k] + order[k + 1..], n)
  {
    assert n in order;
    k :| 0 <= k < |order| && order[k] == n;
    var rest := order[..k] + order[k + 1..];
    forall i | 0 <= i < n ensures i in rest {
      assert i in order;
      var j :| 0 <= j < |order| && order[j] == i;
      assert rest[if j < k then j else j - 1] == i;
    }
  }

  lemma {:induction false} ListsOnce(order: seq<nat>, n: nat)
    requires Lists(order, n)
    ensures forall k | 0 <= k < n :: order[k] < n && order[k] !in order[..k]
    decreases n
  {
    if n > 0 {
      var top := RemoveTop(order, n - 1);
      var rest := order[..top] + order[top + 1..];
      ListsOnce(rest, n - 1);
      forall k | 0 <= k < n ensures order[k] < n && order[k] !in order[..k] {
        if k < top {
          assert rest[k] == order[k] && rest[..k] == order[..k];
        } else if k > top {
          assert rest[k - 1] == order[k] && rest[..k - 1] == order[..top] + order[top + 1..k];
          assert order[..k] == order[..top] + [order[top]] + order[top + 1..k];
        } else {
          forall j | 0 <= j < k ensures order[j] != order[k] { assert rest[j] == order[j] < n - 1; }
        }
      }
    }
  }

  /** Any order that lists each field once adds up to the size of all fields. */
  lemma {:induction false} SizeInAnyOrder(s: seq<Field>, m: Msg, order: seq<nat>, n: nat)
    requires Valid(s, m) && n <= |s| && Lists(order, n)
    ensures forall k | 0 <= k < |order| :: order[k] < |s|
    ensures SizeOver(s, m, order) == |Printed(s, m, n)|
    decreases n
  {
    ListsOnce(order, n);
    if n == 0 {
      assert Printed(s, m, 0) == [];
    } else {
      var k := RemoveTop(order, n - 1);
      PrintStep(s, m, n - 1);
      SizeInAnyOrder(s, m, order[..k] + order[k + 1..], n - 1);
      SizeOverRemove(s, m, order, k);
    }
  }
}
