/** The upper bound of a prefix in byte order, as `LIKE 'abc%'` and
    `starts_with` fold to it. */
module PrefixRange {
  import opened Text
  import opened Utf8

  /** Lexicographic byte order. */
  predicate Less(a: seq<Byte>, b: seq<Byte>) {
    if b == [] then false
    else if a == [] then true
    else if a[0] != b[0] then a[0] < b[0]
    else Less(a[1..], b[1..])
  }

  predicate AllFF(b: seq<Byte>) { forall i :: 0 <= i < |b| ==> b[i] == 0xFF }

  /** The prefix with its last octet below 0xFF raised by one and the rest cut. */
  function SuccessorBytes(p: seq<Byte>): Option<seq<Byte>> {
    if p == [] then None
    else
      var front, last := p[..|p| - 1], p[|p| - 1];
      if last != 0xFF then Some(front + [last + 1]) else SuccessorBytes(front)
  }

  datatype PrefixSuccessor = Bound(text: string) | Unbounded | NotUtf8

  function Successor(prefix: string): PrefixSuccessor {
    match SuccessorBytes(Encode(prefix))
    case None => Unbounded
    case Some(bytes) =>
      match Decode(bytes)
      case Some(text) => Bound(text)
      case None => NotUtf8
  }

  /** `prefix_successor` as written: octets are popped until one can be raised. */
  method FindSuccessor(prefix: string) returns (r: PrefixSuccessor)
    ensures r == Successor(prefix)
  {
    hide Encode, Decode;
    var bytes := Encode(prefix);
    while bytes != []
      invariant SuccessorBytes(bytes) == SuccessorBytes(Encode(prefix))
    {
      var last := bytes[|bytes| - 1];
      bytes := bytes[..|bytes| - 1];
      if last != 0xFF {
        bytes := bytes + [last + 1];
        var text := Decode(bytes);
        return match text case Some(t) => Bound(t) case None => NotUtf8;
      }
    }
    r := Unbounded;
  }

  // ------------------------------------------------------------- byte order

  lemma {:induction false} LessIrreflexive(a: seq<Byte>)
    ensures !Less(a, a)
  {
    if a != [] { LessIrreflexive(a[1..]); }
  }

  lemma {:induction false} LessTotal(a: seq<Byte>, b: seq<Byte>)
    ensures Less(a, b) || a == b || Less(b, a)
  {
    if a != [] && b != [] && a[0] == b[0] {
      LessTotal(a[1..], b[1..]);
      assert a == [a[0]] + a[1..] && b == [b[0]] + b[1..];
    }
  }

  lemma {:induction false} LessTransitive(a: seq<Byte>, b: seq<Byte>, c: seq<Byte>)
    requires Less(a, b) && Less(b, c)
    ensures Less(a, c)
  {
    if a != [] && a[0] == b[0] && b[0] == c[0] { LessTransitive(a[1..], b[1..], c[1..]); }
  }

  lemma {:induction false} LessOfCommonPrefix(x: seq<Byte>, a: seq<Byte>, b: seq<Byte>)
    ensures Less(x + a, x + b) == Less(a, b)
  {
    if x == [] {
      assert x + a == a && x + b == b;
    } else {
      assert (x + a)[1..] == x[1..] + a && (x + b)[1..] == x[1..] + b;
      LessOfCommonPrefix(x[1..], a, b);
    }
  }

  // ----------------------------------------------------- the range is exact

  /** No successor exists exactly when the prefix is empty or all 0xFF. */
  lemma {:induction false} SuccessorExists(p: seq<Byte>)
    ensures SuccessorBytes(p).None? <==> AllFF(p)
  {
    if p != [] {
      SuccessorExists(p[..|p| - 1]);
      assert p == p[..|p| - 1] + [p[|p| - 1]];
    }
  }

  /** Dropping the first octet of a prefix drops it from the successor. */
  lemma {:induction false} SuccessorOfTail(p: seq<Byte>)
    requires p != []
    ensures SuccessorBytes(p) ==
            match SuccessorBytes(p[1..])
            case Some(t) => Some([p[0]] + t)
            case None => if p[0] == 0xFF then None else Some([p[0] + 1])
  {
    var front, last := p[..|p| - 1], p[|p| - 1];
    if |p| == 1 {
      assert p[1..] == [] && front == [];
      if last != 0xFF { assert front + [last + 1] == [p[0] + 1]; }
    } else {
      assert front[1..] == p[1..][..|p| - 2];
      if last == 0xFF {
        SuccessorOfTail(front);
      } else {
        assert front + [last + 1] == [p[0]] + (front[1..] + [last + 1]);
      }
    }
  }

  /** `s` starts with `p` exactly when it lies in `[p, successor(p))`. */
  lemma {:induction false} PrefixIsRange(p: seq<Byte>, s: seq<Byte>)
    ensures p <= s <==>
            !Less(s, p) && (SuccessorBytes(p).Some? ==> Less(s, SuccessorBytes(p).value))
  {
    if p != [] && s != [] {
      SuccessorOfTail(p);
      if p[0] == s[0] {
        PrefixIsRange(p[1..], s[1..]);
        assert p <= s <==> p[1..] <= s[1..] by {
          assert p == [p[0]] + p[1..] && s == [s[0]] + s[1..];
        }
        if SuccessorBytes(p[1..]).Some? {
          var t := SuccessorBytes(p[1..]).value;
          assert ([p[0]] + t)[1..] == t;
        }
      } else if p[0] < s[0] {
        AboveTheFirstOctet(p, s);
      }
    }
  }

  lemma AboveTheFirstOctet(p: seq<Byte>, s: seq<Byte>)
    requires p != [] && s != [] && s[0] > p[0]
    ensures SuccessorBytes(p).Some? && !Less(s, SuccessorBytes(p).value)
  {
    SuccessorOfTail(p);
    var q := SuccessorBytes(p).value;
    if s[0] == q[0] { assert |q| == 1; assert q[1..] == []; }
  }

  /** The successor is the least bound above everything the prefix starts. */
  lemma SuccessorIsLeast(p: seq<Byte>, bound: seq<Byte>)
    requires forall s | p <= s :: Less(s, bound)
    ensures SuccessorBytes(p).Some? && !Less(bound, SuccessorBytes(p).value)
  {
    PrefixIsRange(p, bound);
    LessIrreflexive(bound);
    assert !(p <= bound);
    if Less(bound, p) {
      assert p <= p;
      LessTransitive(bound, p, bound);
    }
  }

  // --------------------------------------------------------- bounds as text

  /** The last octet of a character, and its place among the others. */
  lemma LastOctet(c: char)
    ensures var b := EncodeChar(c);
            b[|b| - 1] == (if c as int < 0x80 then c as int else 0x80 + c as int % 64)
  {
  }

  /** Raising a character whose last octet is neither 0x7F nor 0xBF raises only
      that octet. */
  lemma RaisedChar(c: char)
    requires c as int < 0x7F || (c as int >= 0x80 && c as int % 64 != 63)
    ensures IsScalar(c as int + 1)
    ensures var b := EncodeChar(c);
            EncodeChar((c as int + 1) as char) == b[..|b| - 1] + [b[|b| - 1] + 1]
  {
    var v := c as int;
    CharIsScalar(c);
    assert 0xD7FF % 64 == 63 && 0x10FFFF % 64 == 63 && 0x7FF % 64 == 63 && 0xFFFF % 64 == 63;
    if v >= 0x80 { SextetRaised(v); }
  }

  /** Raising the last six bits, when they are not all ones, raises nothing else. */
  lemma SextetRaised(v: nat)
    requires v % 64 != 63
    ensures (v + 1) % 64 == v % 64 + 1 && (v + 1) / 64 == v / 64
    ensures (v + 1) / 4096 == v / 4096 && (v + 1) / 262144 == v / 262144
  {
    SextetUp(v);
    Twice(v);
    Twice(v + 1);
  }

  lemma Twice(v: nat)
    ensures v / 4096 == v / 64 / 64 && v / 262144 == v / 4096 / 64
  {
  }

  lemma SextetUp(v: nat)
    requires v % 64 != 63
    ensures (v + 1) % 64 == v % 64 + 1 && (v + 1) / 64 == v / 64
  {
  }

  lemma SuccessorOfLast(front: string, c: char)
    ensures var b := EncodeChar(c);
            && b[|b| - 1] != 0xFF
            && SuccessorBytes(Encode(front + [c])) == Some(Encode(front) + (b[..|b| - 1] + [b[|b| - 1] + 1]))
  {
    hide Encode;
    var b := EncodeChar(c);
    LastOctet(c);
    hide EncodeChar;
    EncodeOfConcat(front, [c]);
    SingleEncode(c);
    var p := Encode(front) + b;
    assert p[..|p| - 1] == Encode(front) + b[..|b| - 1];
    assert p[..|p| - 1] + [b[|b| - 1] + 1] == Encode(front) + (b[..|b| - 1] + [b[|b| - 1] + 1]);
  }

  lemma SingleEncode(c: char)
    ensures Encode([c]) == EncodeChar(c)
  {
    assert Encode([c]) == EncodeChar(c) + Encode([c][1..]);
    assert [c][1..] == "";
  }

  /** Raising the last octet 0x7F or 0xBF leaves octets that spell no text. */
  lemma RaisedPastTheEnd(front: string, c: char)
    requires c as int == 0x7F || (c as int >= 0x80 && c as int % 64 == 63)
    ensures var b := EncodeChar(c);
            b[|b| - 1] < 0xFF && Decode(Encode(front) + (b[..|b| - 1] + [b[|b| - 1] + 1])) == None
  {
    var b := EncodeChar(c);
    LastOctet(c);
    var raised := b[..|b| - 1] + [b[|b| - 1] + 1];
    var octets := Encode(front) + raised;
    var t := Decode(octets);
    if t.Some? { NoTextSpells(front, t.value, raised, c); }
  }

  lemma NoTextSpells(front: string, t: string, raised: seq<Byte>, c: char)
    requires c as int == 0x7F || (c as int >= 0x80 && c as int % 64 == 63)
    requires EncodeChar(c)[|EncodeChar(c)| - 1] < 0xFF
    requires raised == EncodeChar(c)[..|EncodeChar(c)| - 1] + [EncodeChar(c)[|EncodeChar(c)| - 1] + 1]
    ensures Encode(t) != Encode(front) + raised
  {
    hide EncodeChar;
    if Encode(front) <= Encode(t) {
      PrefixOfOctets(front, t);
      var rest := t[|front|..];
      assert t == front + rest;
      EncodeOfConcat(front, rest);
      NoCharSpells(rest, raised, c);
      assert Encode(t)[|Encode(front)|..] == Encode(rest);
      assert (Encode(front) + raised)[|Encode(front)|..] == raised;
    }
  }

  lemma NoCharSpells(rest: string, raised: seq<Byte>, c: char)
    requires c as int == 0x7F || (c as int >= 0x80 && c as int % 64 == 63)
    requires EncodeChar(c)[|EncodeChar(c)| - 1] < 0xFF
    requires raised == EncodeChar(c)[..|EncodeChar(c)| - 1] + [EncodeChar(c)[|EncodeChar(c)| - 1] + 1]
    ensures Encode(rest) != raised
  {
    if rest != "" {
      LastOctet(c);
      LeadOfChar(c);
      LeadOfChar(rest[0]);
      assert c as int >= 0x80 ==> |EncodeChar(c)| > 1;
      hide EncodeChar;
      var n := |EncodeChar(rest[0])|;
      assert Encode(rest)[0] == EncodeChar(rest[0])[0];
      assert Encode(rest)[n - 1] == EncodeChar(rest[0])[n - 1];
    }
  }

  /** The bound of a non-empty prefix is text if and only if the prefix's last
      octet is neither 0x7F nor 0xBF; it is then the prefix with its last
      character raised by one, and otherwise the prefix is refused. */
  lemma BoundIsTextIff(front: string, c: char)
    ensures var last := EncodeChar(c)[|EncodeChar(c)| - 1];
            Successor(front + [c]) ==
            if last != 0x7F && last != 0xBF && IsScalar(c as int + 1)
            then Bound(front + [(c as int + 1) as char]) else NotUtf8
    ensures Successor(front + [c]).Bound? <==>
            Encode(front + [c])[|Encode(front + [c])| - 1] !in {0x7F, 0xBF}
  {
    hide Encode, Decode;
    LastOctet(c);
    SuccessorOfLast(front, c);
    EncodeOfConcat(front, [c]);
    SingleEncode(c);
    if c as int < 0x7F || (c as int >= 0x80 && c as int % 64 != 63) {
      RaisedChar(c);
      var d := (c as int + 1) as char;
      EncodeOfConcat(front, [d]);
      SingleEncode(d);
      DecodeOfEncode(front + [d]);
    } else {
      RaisedPastTheEnd(front, c);
    }
  }
}
