/** Scalar index keys: byte order is value order, and a key delimits itself. */
module ScalarKey {
  import opened Text
  import opened Utf8
  import opened PrefixRange

  const TEXT_LIMIT := 1024
  const INT_TAG: Byte := 2
  const TEXT_TAG: Byte := 4

  // ------------------------------------------------------------- text keys

  /** Octets with each zero followed by 0xFF. */
  function Escaped(b: seq<Byte>): seq<Byte> {
    if b == [] then [] else (if b[0] == 0 then [0, 255] else [b[0]]) + Escaped(b[1..])
  }

  /** The key of a text's octets: tag, escaped octets, two zeros. */
  function TextKey(b: seq<Byte>): seq<Byte> {
    [TEXT_TAG] + (Escaped(b) + [0, 0])
  }

  lemma EscapeStep(out: seq<Byte>, b: seq<Byte>)
    requires b != []
    ensures out + Escaped(b) == (if b[0] == 0 then out + [b[0]] + [255] else out + [b[0]]) + Escaped(b[1..])
  {
    var head, rest := if b[0] == 0 then [0, 255] else [b[0]], Escaped(b[1..]);
    assert Escaped(b) == head + rest;
    hide Escaped;
    assert out + (head + rest) == out + head + rest;
    if b[0] == 0 { assert out + [0] + [255] == out + head; }
  }

  /** The `Kind::Text` arm of `encode_into`; `None` past the length limit. */
  method EncodeText(s: string) returns (r: Option<seq<Byte>>)
    ensures r == if |Encode(s)| > TEXT_LIMIT then None else Some(TextKey(Encode(s)))
  {
    assert Escaped([]) == [];
    hide Encode, Escaped;
    var bytes := Encode(s);
    if |bytes| > TEXT_LIMIT { return None; }
    var out: seq<Byte> := [TEXT_TAG];
    for i := 0 to |bytes|
      invariant out + Escaped(bytes[i..]) == [TEXT_TAG] + Escaped(bytes)
    {
      assert bytes[i..][1..] == bytes[i + 1..];
      EscapeStep(out, bytes[i..]);
      out := out + [bytes[i]];
      if bytes[i] == 0 { out := out + [255]; }
    }
    assert bytes[|bytes|..] == [] && out + [] == out;
    out := out + [0, 0];
    assert out == TextKey(bytes);
    r := Some(out);
  }

  /** The octets of a text key after its tag, and how many were read; `None` for
      an escape or a length no key has. */
  function ReadEscaped(b: seq<Byte>, room: nat): Option<(seq<Byte>, nat)>
    decreases |b|
  {
    if |b| < 2 then None
    else if b[0] == 0 && b[1] == 0 then Some(([], 2))
    else if b[0] == 0 && b[1] != 255 then None
    else if room == 0 then None
    else
      var width := if b[0] == 0 then 2 else 1;
      var rest := ReadEscaped(b[width..], room - 1);
      if rest.None? then None else Some(([b[0]] + rest.value.0, width + rest.value.1))
  }

  /** The `Kind::Text` arm of `decode`: the text and the key's width. */
  function DecodeText(b: seq<Byte>): Option<(string, nat)> {
    if b == [] || b[0] != TEXT_TAG then None
    else
      var octets := ReadEscaped(b[1..], TEXT_LIMIT);
      if octets.None? then None
      else
        var text := Decode(octets.value.0);
        if text.None? then None else Some((text.value, 1 + octets.value.1))
  }

  lemma {:induction false} ReadEscapedBack(b: seq<Byte>, tail: seq<Byte>, room: nat)
    requires |b| <= room
    ensures ReadEscaped(Escaped(b) + [0, 0] + tail, room) == Some((b, |Escaped(b)| + 2))
    decreases |b|
  {
    var key := Escaped(b) + [0, 0] + tail;
    if b != [] {
      ReadEscapedBack(b[1..], tail, room - 1);
      var width := if b[0] == 0 then 2 else 1;
      var head, rest := if b[0] == 0 then [0, 255] else [b[0]], Escaped(b[1..]);
      assert Escaped(b) == head + rest;
      assert key == head + (rest + [0, 0] + tail);
      assert key[width..] == rest + [0, 0] + tail;
      assert b == [b[0]] + b[1..];
    }
  }

  /** A text key reads back as its text whatever entity id follows it. */
  lemma TextKeyRoundTrip(s: string, suffix: seq<Byte>)
    requires |Encode(s)| <= TEXT_LIMIT
    ensures DecodeText(TextKey(Encode(s)) + suffix) == Some((s, |TextKey(Encode(s))|))
  {
    hide Encode, Decode;
    var b := Encode(s);
    ReadEscapedBack(b, suffix, TEXT_LIMIT);
    assert (TextKey(b) + suffix)[1..] == Escaped(b) + [0, 0] + suffix;
    DecodeOfEncode(s);
  }

  lemma {:induction false} EscapedOrder(a: seq<Byte>, b: seq<Byte>)
    ensures Less(Escaped(a) + [0, 0], Escaped(b) + [0, 0]) <==> Less(a, b)
  {
    var x, y := Escaped(a) + [0, 0], Escaped(b) + [0, 0];
    if a == [] && b == [] {
      LessIrreflexive(x);
    } else if a != [] && b != [] && a[0] == b[0] {
      EscapedOrder(a[1..], b[1..]);
      var head := if a[0] == 0 then [0, 255] else [a[0]];
      assert x == head + (Escaped(a[1..]) + [0, 0]) && y == head + (Escaped(b[1..]) + [0, 0]);
      LessOfCommonPrefix(head, Escaped(a[1..]) + [0, 0], Escaped(b[1..]) + [0, 0]);
    } else {
      assert x[0] == (if a == [] then 0 else a[0]) && y[0] == (if b == [] then 0 else b[0]);
      if x[0] == y[0] {
        assert x[1] == (if a == [] then 0 else 255) && y[1] == (if b == [] then 0 else 255);
      }
    }
  }

  /** Keys order as the texts' octets do, zeros included. */
  lemma TextKeyOrder(a: seq<Byte>, b: seq<Byte>)
    ensures Less(TextKey(a), TextKey(b)) <==> Less(a, b)
  {
    EscapedOrder(a, b);
    LessOfCommonPrefix([TEXT_TAG], Escaped(a) + [0, 0], Escaped(b) + [0, 0]);
  }

  // ---------------------------------------------------------- integer keys

  function Pow256(n: nat): nat { if n == 0 then 1 else 256 * Pow256(n - 1) }

  function BigEndian(v: nat, n: nat): (b: seq<Byte>)
    ensures |b| == n
  {
    if n == 0 then [] else BigEndian(v / 256, n - 1) + [v % 256]
  }

  /** The `Kind::Int` key: the sign bit flipped, big-endian. */
  function IntKey(x: int): seq<Byte>
    requires -0x8000_0000_0000_0000 <= x < 0x8000_0000_0000_0000
  {
    [INT_TAG] + BigEndian(x + 0x8000_0000_0000_0000, 8)
  }

  lemma {:induction false} LessOfSameLength(a: seq<Byte>, b: seq<Byte>, x: Byte, y: Byte)
    requires |a| == |b|
    ensures Less(a + [x], b + [y]) <==> Less(a, b) || (a == b && x < y)
  {
    if a == [] {
      assert a + [x] == [x] && b + [y] == [y];
      assert [x][1..] == [] && [y][1..] == [];
    } else {
      assert (a + [x])[1..] == a[1..] + [x] && (b + [y])[1..] == b[1..] + [y];
      LessOfSameLength(a[1..], b[1..], x, y);
      assert a == [a[0]] + a[1..] && b == [b[0]] + b[1..];
    }
  }

  lemma {:induction false} BigEndianOrder(v: nat, w: nat, n: nat)
    requires v < Pow256(n) && w < Pow256(n)
    ensures Less(BigEndian(v, n), BigEndian(w, n)) <==> v < w
    ensures BigEndian(v, n) == BigEndian(w, n) <==> v == w
  {
    if n > 0 {
      BigEndianOrder(v / 256, w / 256, n - 1);
      var a, b := BigEndian(v / 256, n - 1), BigEndian(w / 256, n - 1);
      LessOfSameLength(a, b, v % 256, w % 256);
      assert v == 256 * (v / 256) + v % 256 && w == 256 * (w / 256) + w % 256;
      if BigEndian(v, n) == BigEndian(w, n) {
        assert BigEndian(v, n)[..n - 1] == a && BigEndian(w, n)[..n - 1] == b;
        assert BigEndian(v, n)[n - 1] == v % 256 && BigEndian(w, n)[n - 1] == w % 256;
      }
    }
  }

  /** Integer keys order as the integers do, across the sign. */
  lemma IntKeyOrder(x: int, y: int)
    requires -0x8000_0000_0000_0000 <= x < 0x8000_0000_0000_0000
    requires -0x8000_0000_0000_0000 <= y < 0x8000_0000_0000_0000
    ensures Less(IntKey(x), IntKey(y)) <==> x < y
  {
    assert Pow256(8) == 0x1_0000_0000_0000_0000 by {
      assert Pow256(2) == 0x1_0000 && Pow256(4) == 0x1_0000_0000 && Pow256(6) == 0x1_0000_0000_0000;
    }
    var v, w := x + 0x8000_0000_0000_0000, y + 0x8000_0000_0000_0000;
    BigEndianOrder(v, w, 8);
    LessOfCommonPrefix([INT_TAG], BigEndian(v, 8), BigEndian(w, 8));
  }

  /** The number some octets write, high end first. */
  function FromBigEndian(b: seq<Byte>): nat {
    if b == [] then 0 else 256 * FromBigEndian(b[..|b| - 1]) + (b[|b| - 1] as int)
  }

  /** The `Kind::Int` arm of `decode`: the integer and the key's width. */
  function DecodeInt(b: seq<Byte>): Option<(int, nat)> {
    if |b| < 9 || b[0] != INT_TAG then None
    else Some((FromBigEndian(b[1..9]) - 0x8000_0000_0000_0000, 9))
  }

  lemma {:induction false} BigEndianReads(v: nat, n: nat)
    requires v < Pow256(n)
    ensures FromBigEndian(BigEndian(v, n)) == v
  {
    if n > 0 {
      BigEndianReads(v / 256, n - 1);
      var b := BigEndian(v, n);
      assert b[..n - 1] == BigEndian(v / 256, n - 1) && b[n - 1] == v % 256;
    }
  }

  /** An integer key reads back as its integer whatever entity id follows it. */
  lemma IntKeyRoundTrip(x: int, suffix: seq<Byte>)
    requires -0x8000_0000_0000_0000 <= x < 0x8000_0000_0000_0000
    ensures DecodeInt(IntKey(x) + suffix) == Some((x, 9))
  {
    var v := x + 0x8000_0000_0000_0000;
    assert Pow256(4) == 0x1_0000_0000 && Pow256(8) == 0x1_0000_0000_0000_0000 by {
      assert Pow256(1) == 256 && Pow256(2) == 65536 && Pow256(3) == 16777216;
      assert Pow256(5) == 0x100_0000_0000 && Pow256(6) == 0x1_0000_0000_0000 && Pow256(7) == 0x100_0000_0000_0000;
    }
    BigEndianReads(v, 8);
    hide BigEndian, FromBigEndian;
    var key := IntKey(x) + suffix;
    assert key[1..9] == BigEndian(v, 8);
  }
}
