/** Well-formed UTF-8 (table 3-7 of the Unicode Standard), which every string field must satisfy. */
module Utf8 {
  import opened Prelude

  predicate Continuation(b: Byte) {
    0x80 <= b <= 0xBF
  }

  predicate ThreeByteLead(a: Byte, b: Byte) {
    || (a == 0xE0 && 0xA0 <= b <= 0xBF)
    || (a == 0xED && 0x80 <= b <= 0x9F)
    || (0xE1 <= a <= 0xEF && a != 0xED && Continuation(b))
  }

  predicate FourByteLead(a: Byte, b: Byte) {
    || (a == 0xF0 && 0x90 <= b <= 0xBF)
    || (0xF1 <= a <= 0xF3 && Continuation(b))
    || (a == 0xF4 && 0x80 <= b <= 0x8F)
  }

  predicate ValidUtf8(s: seq<Byte>)
    decreases |s|
  {
    || |s| == 0
    || (s[0] < 0x80 && ValidUtf8(s[1..]))
    || (|s| >= 2 && 0xC2 <= s[0] <= 0xDF && Continuation(s[1]) && ValidUtf8(s[2..]))
    || (|s| >= 3 && ThreeByteLead(s[0], s[1]) && Continuation(s[2]) && ValidUtf8(s[3..]))
    || (|s| >= 4 && FourByteLead(s[0], s[1]) && Continuation(s[2]) && Continuation(s[3]) && ValidUtf8(s[4..]))
  }

  // ---------- the texts it is made for ----------

  /** A Unicode scalar value: any code point but a surrogate. */
  predicate IsScalarValue(c: nat) {
    c < 0xD800 || 0xE000 <= c <= 0x10FFFF
  }

  function EncodePoint(c: nat): seq<Byte>
    requires IsScalarValue(c)
  {
    if c < 0x80 then [c]
    else if c < 0x800 then [0xC0 + c / 64, 0x80 + c % 64]
    else if c < 0x1_0000 then [0xE0 + c / 64 / 64, 0x80 + c / 64 % 64, 0x80 + c % 64]
    else [0xF0 + c / 64 / 64 / 64, 0x80 + c / 64 / 64 % 64, 0x80 + c / 64 % 64, 0x80 + c % 64]
  }

  predicate AreScalarValues(cs: seq<nat>) {
    forall i | 0 <= i < |cs| :: IsScalarValue(cs[i])
  }

  function Encode(cs: seq<nat>): seq<Byte>
    requires AreScalarValues(cs)
  {
    if |cs| == 0 then [] else EncodePoint(cs[0]) + Encode(cs[1..])
  }

  lemma PointIsValid(c: nat, rest: seq<Byte>)
    requires IsScalarValue(c) && ValidUtf8(rest)
    ensures ValidUtf8(EncodePoint(c) + rest)
  {
    var e := EncodePoint(c);
    assert (e + rest)[|e|..] == rest;
  }

  lemma {:induction false} EncodedIsValid(cs: seq<nat>)
    requires AreScalarValues(cs)
    ensures ValidUtf8(Encode(cs))
    decreases |cs|
  {
    if |cs| > 0 {
      EncodedIsValid(cs[1..]);
      PointIsValid(cs[0], Encode(cs[1..]));
    }
  }

  lemma Digit(q: nat, r: nat)
    requires r < 64
    ensures (q * 64 + r) / 64 == q && (q * 64 + r) % 64 == r
  {
  }

  lemma TwoBytes(a: Byte, b: Byte) returns (c: nat)
    requires 0xC2 <= a <= 0xDF && Continuation(b)
    ensures IsScalarValue(c) && EncodePoint(c) == [a, b]
  {
    var q, r: nat := a as int - 0xC0, b as int - 0x80;
    c := q * 64 + r;
    Digit(q, r);
  }

  lemma ThreeBytes(a: Byte, b: Byte, d: Byte) returns (c: nat)
    requires ThreeByteLead(a, b) && Continuation(d)
    ensures IsScalarValue(c) && EncodePoint(c) == [a, b, d]
  {
    var q, r, t: nat := a as int - 0xE0, b as int - 0x80, d as int - 0x80;
    c := (q * 64 + r) * 64 + t;
    Digit(q, r);
    Digit(q * 64 + r, t);
  }

  lemma FourBytes(a: Byte, b: Byte, d: Byte, e: Byte) returns (c: nat)
    requires FourByteLead(a, b) && Continuation(d) && Continuation(e)
    ensures IsScalarValue(c) && EncodePoint(c) == [a, b, d, e]
  {
    var q, r, t, u: nat := a as int - 0xF0, b as int - 0x80, d as int - 0x80, e as int - 0x80;
    c := ((q * 64 + r) * 64 + t) * 64 + u;
    Digit(q, r);
    Digit(q * 64 + r, t);
    Digit((q * 64 + r) * 64 + t, u);
  }

  lemma FirstPoint(s: seq<Byte>) returns (c: nat)
    requires ValidUtf8(s) && |s| > 0
    ensures IsScalarValue(c) && |EncodePoint(c)| <= |s| && s == EncodePoint(c) + s[|EncodePoint(c)|..]
    ensures ValidUtf8(s[|EncodePoint(c)|..])
  {
    if s[0] < 0x80 {
      c := s[0];
    } else {
      hide EncodePoint, IsScalarValue;
      if s[0] <= 0xDF { c := TwoBytes(s[0], s[1]); }
      else if s[0] <= 0xEF { c := ThreeBytes(s[0], s[1], s[2]); }
      else { c := FourBytes(s[0], s[1], s[2], s[3]); }
    }
  }

  lemma {:induction false} ValidIsEncoded(s: seq<Byte>) returns (cs: seq<nat>)
    requires ValidUtf8(s)
    ensures AreScalarValues(cs) && Encode(cs) == s
    decreases |s|
  {
    cs := [];
    if |s| > 0 {
      var c := FirstPoint(s);
      PointNotEmpty(c);
      hide ValidUtf8, EncodePoint, IsScalarValue;
      var rest := ValidIsEncoded(s[|EncodePoint(c)|..]);
      cs := [c] + rest;
      assert cs[1..] == rest;
    }
  }

  lemma PointNotEmpty(c: nat)
    requires IsScalarValue(c)
    ensures |EncodePoint(c)| > 0
  {
  }

  /** The check accepts exactly the encodings of sequences of Unicode scalar values. */
  lemma ValidIff(s: seq<Byte>)
    ensures ValidUtf8(s) <==> exists cs :: AreScalarValues(cs) && Encode(cs) == s
  {
    hide ValidUtf8, Encode;
    if ValidUtf8(s) { var cs := ValidIsEncoded(s); }
    forall cs | AreScalarValues(cs) && Encode(cs) == s ensures ValidUtf8(s) { EncodedIsValid(cs); }
  }
}
