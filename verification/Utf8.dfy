/** UTF-8 (section 4 of RFC 3629): the encoding of text, and `from_utf8`. */
module Utf8 {
  import opened Text

  type Byte = x: int | 0 <= x < 256

  /** The octets of one scalar value. */
  function EncodeChar(c: char): (b: seq<Byte>)
    ensures 1 <= |b| <= 4
  {
    var v := c as int;
    if v < 0x80 then [v]
    else if v < 0x800 then [0xC0 + v / 64, 0x80 + v % 64]
    else if v < 0x1_0000 then [0xE0 + v / 4096, 0x80 + v / 64 % 64, 0x80 + v % 64]
    else [0xF0 + v / 262144, 0x80 + v / 4096 % 64, 0x80 + v / 64 % 64, 0x80 + v % 64]
  }

  function Encode(s: string): seq<Byte> {
    if s == "" then [] else EncodeChar(s[0]) + Encode(s[1..])
  }

  /** How many octets a lead octet announces; 0 for one that leads nothing. */
  function LeadLength(b: Byte): nat {
    if b < 0x80 then 1 else if b < 0xC0 then 0 else if b < 0xE0 then 2 else if b < 0xF0 then 3
    else if b < 0xF8 then 4 else 0
  }

  /** The payload of a sequence as long as its lead announces. */
  function Payload(b: seq<Byte>): int
    requires |b| > 0 && |b| == LeadLength(b[0])
  {
    var x := seq(|b|, i requires 0 <= i < |b| => b[i] as int);
    if |x| == 1 then x[0]
    else if |x| == 2 then (x[0] - 0xC0) * 64 + (x[1] - 0x80)
    else if |x| == 3 then (x[0] - 0xE0) * 4096 + (x[1] - 0x80) * 64 + (x[2] - 0x80)
    else (x[0] - 0xF0) * 262144 + (x[1] - 0x80) * 4096 + (x[2] - 0x80) * 64 + (x[3] - 0x80)
  }

  /** The first character of some octets: only the one encoding of a scalar
      value is accepted, never a longer one, a surrogate or a stray octet. */
  function DecodeChar(b: seq<Byte>): (r: Option<char>)
    requires |b| > 0
    ensures r.Some? ==> EncodeChar(r.value) <= b
  {
    var n := LeadLength(b[0]);
    if n == 0 || |b| < n then None
    else
      var v := Payload(b[..n]);
      if IsScalar(v) && EncodeChar(v as char) == b[..n] then Some(v as char) else None
  }

  /** `String::from_utf8`. */
  function Decode(b: seq<Byte>): (r: Option<string>)
    ensures r.Some? ==> Encode(r.value) == b
  {
    if b == [] then Some("")
    else
      var c := DecodeChar(b);
      if c.None? then None
      else
        var n := |EncodeChar(c.value)|;
        var rest := Decode(b[n..]);
        if rest.None? then None
        else
          assert b == EncodeChar(c.value) + b[n..];
          Some([c.value] + rest.value)
  }

  lemma LeadOfChar(c: char)
    ensures LeadLength(EncodeChar(c)[0]) == |EncodeChar(c)|
    ensures Payload(EncodeChar(c)) == c as int
    ensures |EncodeChar(c)| > 1 ==> forall i :: 1 <= i < |EncodeChar(c)| ==> 0x80 <= EncodeChar(c)[i] < 0xC0
  {
    var v := c as int;
    if v < 0x800 {
    } else if v < 0x1_0000 {
      ThreeSextets(v);
    } else {
      FourSextets(v);
    }
  }

  lemma ThreeSextets(v: nat)
    ensures v == v / 4096 * 4096 + v / 64 % 64 * 64 + v % 64
    ensures v < 0x1_0000 ==> v / 4096 < 16
  {
    Nested(v, 64);
  }

  lemma FourSextets(v: nat)
    ensures v == v / 262144 * 262144 + v / 4096 % 64 * 4096 + v / 64 % 64 * 64 + v % 64
    ensures v < 0x11_0000 ==> v / 262144 < 5
  {
    ThreeSextets(v);
    Nested(v, 4096);
  }

  /** Dividing by 64 once more. */
  lemma Nested(v: nat, d: nat)
    requires d == 64 || d == 4096
    ensures v / (64 * d) * 64 + v / d % 64 == v / d
  {
    if d == 64 { assert v / 4096 == v / 64 / 64; } else { assert v / 262144 == v / 4096 / 64; }
  }

  lemma CharIsScalar(c: char)
    ensures IsScalar(c as int)
  {
  }

  lemma DecodeOfEncodeChar(c: char, tail: seq<Byte>)
    ensures DecodeChar(EncodeChar(c) + tail) == Some(c)
  {
    hide EncodeChar, Payload;
    LeadOfChar(c);
    CharIsScalar(c);
    var b := EncodeChar(c) + tail;
    assert b[..|EncodeChar(c)|] == EncodeChar(c);
  }

  /** Decoding an encoding gives the text back. */
  lemma {:induction false} DecodeOfEncode(s: string)
    ensures Decode(Encode(s)) == Some(s)
  {
    hide EncodeChar, DecodeChar;
    if s != "" {
      var tail := Encode(s[1..]);
      DecodeOfEncodeChar(s[0], tail);
      assert Encode(s)[|EncodeChar(s[0])|..] == tail;
      DecodeOfEncode(s[1..]);
      assert s == [s[0]] + s[1..];
    }
  }

  lemma {:induction false} EncodeOfConcat(a: string, b: string)
    ensures Encode(a + b) == Encode(a) + Encode(b)
  {
    hide EncodeChar;
    if a == "" {
      assert a + b == b;
    } else {
      assert (a + b)[1..] == a[1..] + b;
      EncodeOfConcat(a[1..], b);
    }
  }

  /** Text starts with text exactly when its octets start with the octets: no
      character's octets are the beginning of another's. */
  lemma {:induction false} PrefixOfOctets(a: string, s: string)
    ensures a <= s <==> Encode(a) <= Encode(s)
  {
    hide EncodeChar;
    if a <= s {
      EncodeOfConcat(a, s[|a|..]);
      assert s == a + s[|a|..];
    }
    if a != "" && s != "" && Encode(a) <= Encode(s) {
      SameFirstChar(a, s);
      var n := |EncodeChar(a[0])|;
      assert Encode(a)[n..] == Encode(a[1..]) && Encode(s)[n..] == Encode(s[1..]);
      PrefixOfOctets(a[1..], s[1..]);
      assert a == [a[0]] + a[1..] && s == [s[0]] + s[1..];
    }
  }

  lemma SameFirstChar(a: string, s: string)
    requires a != "" && s != "" && Encode(a) <= Encode(s)
    ensures a[0] == s[0]
  {
    hide EncodeChar, Payload, LeadLength;
    LeadOfChar(a[0]);
    LeadOfChar(s[0]);
    var n := |EncodeChar(a[0])|;
    assert Encode(a)[0] == EncodeChar(a[0])[0] && Encode(s)[0] == EncodeChar(s[0])[0];
    assert Encode(a)[..n] == EncodeChar(a[0]);
    assert Encode(s)[..n] == EncodeChar(s[0]);
    assert Encode(a)[..n] == Encode(s)[..n];
  }
}
