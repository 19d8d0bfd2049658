/** Six bits at a time: the packing that base64 and bcrypt's own alphabet share,
    its bit-accumulator decoder, and bcrypt's texts. */
module Codec {
  import opened Text
  import opened Utf8

  // ---------------------------------------------------------------- alphabets

  datatype Alphabet = Base64 | Crypt64 | Bcrypt64

  /** The character at a place of an alphabet: `A-Za-z0-9+/`, `./0-9A-Za-z` and
      `./A-Za-z0-9`. */
  function CharOf(a: Alphabet, v: int): char
    requires 0 <= v < 64
  {
    match a
    case Base64 =>
      if v < 26 then (v + 'A' as int) as char else if v < 52 then (v - 26 + 'a' as int) as char
      else if v < 62 then (v - 52 + '0' as int) as char else if v == 62 then '+' else '/'
    case Crypt64 =>
      if v == 0 then '.' else if v == 1 then '/' else if v < 12 then (v - 2 + '0' as int) as char
      else if v < 38 then (v - 12 + 'A' as int) as char else (v - 38 + 'a' as int) as char
    case Bcrypt64 =>
      if v == 0 then '.' else if v == 1 then '/' else if v < 28 then (v - 2 + 'A' as int) as char
      else if v < 54 then (v - 28 + 'a' as int) as char else (v - 54 + '0' as int) as char
  }

  /** `position`: a character's place, if it has one. */
  function PlaceOf(a: Alphabet, c: char): Option<int> {
    var x := c as int;
    match a
    case Base64 =>
      if 'A' <= c <= 'Z' then Some(x - 'A' as int) else if 'a' <= c <= 'z' then Some(x - 'a' as int + 26)
      else if '0' <= c <= '9' then Some(x - '0' as int + 52) else if c == '+' then Some(62)
      else if c == '/' then Some(63) else None
    case Crypt64 =>
      if c == '.' then Some(0) else if c == '/' then Some(1)
      else if '0' <= c <= '9' then Some(x - '0' as int + 2)
      else if 'A' <= c <= 'Z' then Some(x - 'A' as int + 12)
      else if 'a' <= c <= 'z' then Some(x - 'a' as int + 38) else None
    case Bcrypt64 =>
      if c == '.' then Some(0) else if c == '/' then Some(1)
      else if 'A' <= c <= 'Z' then Some(x - 'A' as int + 2)
      else if 'a' <= c <= 'z' then Some(x - 'a' as int + 28)
      else if '0' <= c <= '9' then Some(x - '0' as int + 54) else None
  }

  const UPPER := "ABCDEFGHIJKLMNOPQRSTUVWXYZ"
  const LOWER := "abcdefghijklmnopqrstuvwxyz"
  const DIGITS := "0123456789"

  /** The three constants, as they are written out. */
  function Letters(a: Alphabet): string {
    match a
    case Base64 => UPPER + LOWER + DIGITS + "+/"
    case Crypt64 => "./" + DIGITS + UPPER + LOWER
    case Bcrypt64 => "./" + UPPER + LOWER + DIGITS
  }

  lemma UpperRun(i: nat)
    ensures |UPPER| == 26 && (i < 26 ==> UPPER[i] as int == 'A' as int + i)
  {
  }

  lemma LowerRun(i: nat)
    ensures |LOWER| == 26 && (i < 26 ==> LOWER[i] as int == 'a' as int + i)
  {
  }

  lemma DigitsRun(i: nat)
    ensures |DIGITS| == 10 && (i < 10 ==> DIGITS[i] as int == '0' as int + i)
  {
  }

  /** A place in four texts joined. */
  lemma Joined(w: string, x: string, y: string, z: string, i: nat)
    requires i < |w| + |x| + |y| + |z|
    ensures (w + x + y + z)[i] ==
            if i < |w| then w[i]
            else if i < |w| + |x| then x[i - |w|]
            else if i < |w| + |x| + |y| then y[i - |w| - |x|]
            else z[i - |w| - |x| - |y|]
  {
  }

  /** Every place of every alphabet holds the character written there. */
  lemma AlphabetIsWritten(a: Alphabet, v: nat)
    requires v < 64
    ensures |Letters(a)| == 64 && CharOf(a, v) == Letters(a)[v]
  {
    hide UPPER, LOWER, DIGITS;
    var (u, l, d) := match a case Base64 => (0, 26, 52) case Crypt64 => (12, 38, 2) case Bcrypt64 => (2, 28, 54);
    UpperRun(if v >= u then v - u else 0);
    LowerRun(if v >= l then v - l else 0);
    DigitsRun(if v >= d then v - d else 0);
    match a
    case Base64 => Joined(UPPER, LOWER, DIGITS, "+/", v);
    case Crypt64 => Joined("./", DIGITS, UPPER, LOWER, v);
    case Bcrypt64 => Joined("./", UPPER, LOWER, DIGITS, v);
  }

  lemma PlaceOfChar(a: Alphabet, v: int)
    requires 0 <= v < 64
    ensures PlaceOf(a, CharOf(a, v)) == Some(v)
    ensures CharOf(a, v) != '=' && CharOf(a, v) != '$' && !IsSpace(CharOf(a, v)) && CharOf(a, v) as int < 128
  {
  }

  lemma CharOfPlace(a: Alphabet, c: char)
    ensures PlaceOf(a, c).Some? ==> 0 <= PlaceOf(a, c).value < 64 && CharOf(a, PlaceOf(a, c).value) == c
  {
  }

  // ------------------------------------------------------------------ packing

  predicate IsSextets(vs: seq<int>) { forall i :: 0 <= i < |vs| ==> 0 <= vs[i] < 64 }

  /** The sextets of one chunk of one to three octets: one more than its octets. */
  function PackChunk(b: seq<Byte>): (vs: seq<int>)
    requires 1 <= |b| <= 3
    ensures |vs| == |b| + 1 && IsSextets(vs)
  {
    var b0, b1, b2 := b[0] as int, if |b| > 1 then b[1] as int else 0, if |b| > 2 then b[2] as int else 0;
    var n := b0 * 65536 + b1 * 256 + b2;
    var all := [n / 262144 % 64, n / 4096 % 64, n / 64 % 64, n % 64];
    all[..|b| + 1]
  }

  function Pack(b: seq<Byte>): (vs: seq<int>)
    ensures IsSextets(vs)
  {
    if b == [] then [] else if |b| <= 3 then PackChunk(b) else PackChunk(b[..3]) + Pack(b[3..])
  }

  function Pow2(n: nat): (p: nat)
    ensures p > 0
  {
    if n == 0 then 1 else 2 * Pow2(n - 1)
  }

  /** The accumulator holds `count` bits, and `count` is what four sextets leave
      of three octets. */
  predicate AccOk(bits: int, count: nat) {
    (count == 0 || count == 2 || count == 4 || count == 6) && 0 <= bits < Pow2(count)
  }

  /** One sextet into the accumulator: the octet it completes, if any, and the
      bits left. */
  function Feed(bits: int, count: nat, v: int): (r: (seq<Byte>, int, nat))
    requires AccOk(bits, count) && 0 <= v < 64
    ensures AccOk(r.1, r.2) && |r.0| <= 1 && 8 * |r.0| + r.2 == count + 6
  {
    PowersOfTwo();
    var all := bits * 64 + v;
    if count + 6 < 8 then ([], all, count + 6)
    else
      var left := count - 2;
      ([all / Pow2(left)], all % Pow2(left), left)
  }

  lemma PowersOfTwo()
    ensures Pow2(0) == 1 && Pow2(2) == 4 && Pow2(4) == 16 && Pow2(6) == 64 && Pow2(8) == 256
  {
    assert Pow2(1) == 2 && Pow2(3) == 8 && Pow2(5) == 32 && Pow2(7) == 128;
  }

  /** The octets a run of sextets completes. */
  function Unpack(vs: seq<int>, bits: int, count: nat): seq<Byte>
    requires IsSextets(vs) && AccOk(bits, count)
    decreases |vs|
  {
    if vs == [] then []
    else
      var (out, bits', count') := Feed(bits, count, vs[0]);
      out + Unpack(vs[1..], bits', count')
  }

  lemma {:induction false} UnpackLength(vs: seq<int>, bits: int, count: nat)
    requires IsSextets(vs) && AccOk(bits, count)
    ensures |Unpack(vs, bits, count)| == (6 * |vs| + count) / 8
    decreases |vs|
  {
    hide Feed;
    if vs != [] {
      var (out, bits', count') := Feed(bits, count, vs[0]);
      UnpackLength(vs[1..], bits', count');
    }
  }

  /** A chunk's sextets in terms of its octets. */
  lemma PackParts(b0: int, b1: int, b2: int)
    requires 0 <= b0 < 256 && 0 <= b1 < 256 && 0 <= b2 < 256
    ensures var n := b0 * 65536 + b1 * 256 + b2;
            && n / 262144 % 64 == b0 / 4
            && n / 4096 % 64 == b0 % 4 * 16 + b1 / 16
            && n / 64 % 64 == b1 % 16 * 4 + b2 / 64
            && n % 64 == b2 % 64
  {
    var q0, r0 := b0 / 4, b0 % 4;
    var q1, r1 := b1 / 16, b1 % 16;
    var q2, r2 := b2 / 64, b2 % 64;
    Over262144(q0, 65536 * r0 + 256 * b1 + b2);
    Over64(0, q0);
    Over4096(64 * q0 + 16 * r0 + q1, 256 * r1 + b2);
    Over64(q0, 16 * r0 + q1);
    Over64(4096 * q0 + 1024 * r0 + 64 * q1 + 4 * r1 + q2, r2);
    Over64(64 * q0 + 16 * r0 + q1, 4 * r1 + q2);
  }

  lemma Over262144(q: int, r: int)
    requires 0 <= r < 262144
    ensures (q * 262144 + r) / 262144 == q
  {
  }

  lemma Over4096(q: int, r: int)
    requires 0 <= r < 4096
    ensures (q * 4096 + r) / 4096 == q
  {
  }

  lemma Over64(q: int, r: int)
    requires 0 <= r < 64
    ensures (q * 64 + r) / 64 == q && (q * 64 + r) % 64 == r
  {
  }

  lemma ChunkSextets(b: seq<Byte>)
    requires 1 <= |b| <= 3
    ensures var b1, b2 := if |b| > 1 then b[1] as int else 0, if |b| > 2 then b[2] as int else 0;
            PackChunk(b) ==
            [b[0] as int / 4, b[0] as int % 4 * 16 + b1 / 16, b1 % 16 * 4 + b2 / 64, b2 % 64][..|b| + 1]
  {
    PackParts(b[0], if |b| > 1 then b[1] else 0, if |b| > 2 then b[2] else 0);
  }

  lemma UnpackTwo(vs: seq<int>, b0: int, b1: int)
    requires IsSextets(vs) && |vs| >= 2 && 0 <= b0 < 256 && 0 <= b1 < 256
    requires vs[0] == b0 / 4 && vs[1] == b0 % 4 * 16 + b1 / 16
    ensures AccOk(0, 0) && AccOk(b1 / 16, 4) && Unpack(vs, 0, 0) == [b0] + Unpack(vs[2..], b1 / 16, 4)
  {
    FeedFirst(b0, b1);
    hide Feed, AccOk, Unpack;
    UnpackStep(vs, 0, 0, [], b0 / 4, 6);
    assert vs[1..][0] == vs[1] && vs[1..][1..] == vs[2..];
    UnpackStep(vs[1..], b0 / 4, 6, [b0], b1 / 16, 4);
  }

  /** Three octets and their four sextets are one 24-bit number, high end first. */
  lemma ChunkIsBigEndian(b: seq<Byte>)
    requires |b| == 3
    ensures var v := PackChunk(b);
            v[0] * 262144 + v[1] * 4096 + v[2] * 64 + v[3] == (b[0] as int) * 65536 + (b[1] as int) * 256 + (b[2] as int)
  {
    ChunkSextets(b);
    hide PackChunk;
  }

  lemma UnpackChunk(b: seq<Byte>, rest: seq<int>)
    requires 1 <= |b| <= 3 && IsSextets(rest) && (|b| < 3 ==> rest == [])
    ensures AccOk(0, 0) && Unpack(PackChunk(b) + rest, 0, 0) == b + Unpack(rest, 0, 0)
  {
    UnpackNothing();
    hide PackChunk, AccOk, Unpack;
    var vs := PackChunk(b);
    if |b| == 1 {
      ChunkOne(b);
      assert vs + rest == vs && b + [] == [b[0]];
      UnpackOne(vs, b[0]);
    } else if |b| == 2 {
      ChunkTwo(b);
      assert vs + rest == vs && b + [] == [b[0], b[1]];
      UnpackPair(vs, b[0], b[1]);
    } else {
      ChunkThree(b);
      UnpackThree(vs + rest, b[0], b[1], b[2]);
      assert (vs + rest)[4..] == rest && b == [b[0], b[1], b[2]];
    }
  }

  lemma ChunkOne(b: seq<Byte>)
    requires |b| == 1
    ensures PackChunk(b) == [b[0] as int / 4, b[0] as int % 4 * 16]
  {
    ChunkSextets(b);
    hide PackChunk;
  }

  lemma ChunkTwo(b: seq<Byte>)
    requires |b| == 2
    ensures PackChunk(b) == [b[0] as int / 4, b[0] as int % 4 * 16 + b[1] as int / 16, b[1] as int % 16 * 4]
  {
    ChunkSextets(b);
    hide PackChunk;
  }

  lemma ChunkThree(b: seq<Byte>)
    requires |b| == 3
    ensures PackChunk(b) == [b[0] as int / 4, b[0] as int % 4 * 16 + b[1] as int / 16,
                             b[1] as int % 16 * 4 + b[2] as int / 64, b[2] as int % 64]
  {
    ChunkSextets(b);
    hide PackChunk;
  }

  lemma UnpackNothing()
    ensures AccOk(0, 0) && Unpack([], 0, 0) == []
  {
    PowersOfTwo();
  }

  lemma UnpackOne(vs: seq<int>, b0: Byte)
    requires vs == [b0 as int / 4, b0 as int % 4 * 16] && IsSextets(vs)
    ensures AccOk(0, 0) && Unpack(vs, 0, 0) == [b0]
  {
    UnpackTwo(vs, b0, 0);
    assert vs[2..] == [];
  }

  lemma UnpackPair(vs: seq<int>, b0: Byte, b1: Byte)
    requires IsSextets(vs) && vs == [b0 as int / 4, b0 as int % 4 * 16 + b1 as int / 16, b1 as int % 16 * 4]
    ensures AccOk(0, 0) && Unpack(vs, 0, 0) == [b0, b1]
  {
    UnpackTwo(vs, b0, b1);
    UnpackThird(vs[2..], b1, 0);
    assert vs[2..][1..] == [];
  }

  lemma UnpackThree(vs: seq<int>, b0: Byte, b1: Byte, b2: Byte)
    requires IsSextets(vs) && |vs| >= 4
    requires vs[0] == b0 as int / 4 && vs[1] == b0 as int % 4 * 16 + b1 as int / 16
    requires vs[2] == b1 as int % 16 * 4 + b2 as int / 64 && vs[3] == b2 as int % 64
    ensures AccOk(0, 0) && Unpack(vs, 0, 0) == [b0, b1, b2] + Unpack(vs[4..], 0, 0)
  {
    UnpackTwo(vs, b0, b1);
    UnpackThird(vs[2..], b1, b2);
    assert vs[2..][1..] == vs[3..];
    FeedThird(b2);
    UnpackStep(vs[3..], b2 as int / 64, 2, [b2], 0, 0);
    assert vs[3..][1..] == vs[4..];
    hide Unpack, AccOk, Feed;
    JoinThree([b0, b1, b2], Unpack(vs[4..], 0, 0));
  }

  lemma UnpackThird(vs: seq<int>, b1: Byte, b2: Byte)
    requires IsSextets(vs) && vs != [] && vs[0] == b1 as int % 16 * 4 + b2 as int / 64
    ensures AccOk(b1 as int / 16, 4) && AccOk(b2 as int / 64, 2)
    ensures Unpack(vs, b1 as int / 16, 4) == [b1] + Unpack(vs[1..], b2 as int / 64, 2)
  {
    FeedSecond(b1, b2);
    hide Feed, AccOk, Unpack;
    UnpackStep(vs, b1 as int / 16, 4, [b1], b2 as int / 64, 2);
  }

  /** One sextet off the front. */
  lemma UnpackStep(vs: seq<int>, bits: int, count: nat, more: seq<Byte>, bits': int, count': nat)
    requires IsSextets(vs) && vs != [] && AccOk(bits, count) && Feed(bits, count, vs[0]) == (more, bits', count')
    ensures IsSextets(vs[1..]) && AccOk(bits', count')
    ensures Unpack(vs, bits, count) == more + Unpack(vs[1..], bits', count')
  {
    hide Feed, AccOk;
  }

  lemma JoinThree(b: seq<Byte>, rest: seq<Byte>)
    requires |b| == 3
    ensures [b[0]] + ([b[1]] + ([b[2]] + rest)) == b + rest
  {
  }

  lemma FeedFirst(b0: int, b1: int)
    requires 0 <= b0 < 256 && 0 <= b1 < 256
    ensures AccOk(0, 0) && AccOk(b0 / 4, 6) && AccOk(b1 / 16, 4)
    ensures Feed(0, 0, b0 / 4) == ([], b0 / 4, 6)
    ensures Feed(b0 / 4, 6, b0 % 4 * 16 + b1 / 16) == ([b0], b1 / 16, 4)
  {
    PowersOfTwo();
    assert b0 / 4 * 64 + (b0 % 4 * 16 + b1 / 16) == 16 * b0 + b1 / 16;
  }

  lemma FeedSecond(b1: int, b2: int)
    requires 0 <= b1 < 256 && 0 <= b2 < 256
    ensures AccOk(b1 / 16, 4) && AccOk(b2 / 64, 2)
    ensures Feed(b1 / 16, 4, b1 % 16 * 4 + b2 / 64) == ([b1], b2 / 64, 2)
  {
    PowersOfTwo();
    assert b1 / 16 * 64 + (b1 % 16 * 4 + b2 / 64) == 4 * b1 + b2 / 64;
  }

  lemma FeedThird(b2: int)
    requires 0 <= b2 < 256
    ensures AccOk(b2 / 64, 2) && AccOk(0, 0) && Feed(b2 / 64, 2, b2 % 64) == ([b2], 0, 0)
  {
    PowersOfTwo();
  }

  /** Unpacking gives the packed octets back. */
  lemma {:induction false} UnpackOfPack(b: seq<Byte>)
    ensures AccOk(0, 0) && Unpack(Pack(b), 0, 0) == b
  {
    PowersOfTwo();
    hide PackChunk;
    if b == [] {
    } else if |b| <= 3 {
      UnpackChunk(b, []);
      assert PackChunk(b) + [] == PackChunk(b) && b + [] == b;
    } else {
      UnpackChunk(b[..3], Pack(b[3..]));
      UnpackOfPack(b[3..]);
      assert b == b[..3] + b[3..];
    }
  }

  lemma {:induction false} PackLength(b: seq<Byte>)
    ensures |Pack(b)| == |b| / 3 * 4 + (if |b| % 3 == 0 then 0 else |b| % 3 + 1)
  {
    if |b| > 3 { PackLength(b[3..]); }
  }

  // ---------------------------------------------------- bcrypt's alphabet

  function Spell(a: Alphabet, vs: seq<int>): (s: string)
    requires IsSextets(vs)
    ensures |s| == |vs|
  {
    seq(|vs|, i requires 0 <= i < |vs| => CharOf(a, vs[i]))
  }

  /** `bcrypt64_encode`. */
  function BcryptEncode(b: seq<Byte>): string { Spell(Bcrypt64, Pack(b)) }

  predicate InAlphabet(a: Alphabet, s: string) { forall i :: 0 <= i < |s| ==> PlaceOf(a, s[i]).Some? }

  function Places(a: Alphabet, s: string): (vs: seq<int>)
    requires InAlphabet(a, s)
    ensures |vs| == |s| && IsSextets(vs)
  {
    var vs := seq(|s|, i requires 0 <= i < |s| => PlaceOf(a, s[i]).value);
    assert IsSextets(vs) by {
      forall i | 0 <= i < |vs| ensures 0 <= vs[i] < 64 { CharOfPlace(a, s[i]); }
    }
    vs
  }

  /** `bcrypt64_decode`. */
  function BcryptDecode(s: string): Option<seq<Byte>> {
    PowersOfTwo();
    if InAlphabet(Bcrypt64, s) then Some(Unpack(Places(Bcrypt64, s), 0, 0)) else None
  }

  /** `bcrypt64_encode` as written: a character per sextet, no padding. */
  method EncodeBcrypt(bytes: seq<Byte>) returns (out: string)
    ensures out == BcryptEncode(bytes)
  {
    hide Spell, PackChunk;
    out := "";
    var k := 0;
    assert bytes[0..] == bytes;
    while k < |bytes|
      invariant k <= |bytes| && out + Spell(Bcrypt64, Pack(bytes[k..])) == Spell(Bcrypt64, Pack(bytes))
    {
      var end := if k + 3 <= |bytes| then k + 3 else |bytes|;
      var chunk := bytes[k..end];
      var vs := PackChunk(chunk);
      SpellFirstChunk(bytes[k..]);
      assert bytes[k..][..end - k] == chunk && bytes[k..][end - k..] == bytes[end..];
      ghost var before := out;
      for i := 0 to |chunk| + 1
        invariant out == before + Spell(Bcrypt64, vs[..i])
      {
        SpellNext(vs, i);
        out := out + [CharOf(Bcrypt64, vs[i])];
      }
      assert vs[..|chunk| + 1] == vs;
      k := end;
    }
    SpellNothing();
    assert bytes[k..] == [] && out + "" == out;
  }

  lemma SpellNothing()
    ensures Spell(Bcrypt64, []) == "" && Pack([]) == []
  {
  }

  lemma SpellNext(vs: seq<int>, i: nat)
    requires IsSextets(vs) && i < |vs|
    ensures Spell(Bcrypt64, vs[..i + 1]) == Spell(Bcrypt64, vs[..i]) + [CharOf(Bcrypt64, vs[i])]
  {
  }

  lemma SpellFirstChunk(b: seq<Byte>)
    requires b != []
    ensures var n := if |b| < 3 then |b| else 3;
            Spell(Bcrypt64, Pack(b)) == Spell(Bcrypt64, PackChunk(b[..n])) + Spell(Bcrypt64, Pack(b[n..]))
  {
    hide PackChunk, Spell;
    var n := if |b| < 3 then |b| else 3;
    assert |b| <= 3 ==> b[..n] == b && b[n..] == [];
    assert Pack(b) == PackChunk(b[..n]) + Pack(b[n..]);
    SpellConcat(Bcrypt64, PackChunk(b[..n]), Pack(b[n..]));
  }

  lemma SpellConcat(a: Alphabet, vs: seq<int>, ws: seq<int>)
    requires IsSextets(vs) && IsSextets(ws)
    ensures IsSextets(vs + ws) && Spell(a, vs + ws) == Spell(a, vs) + Spell(a, ws)
  {
  }

  /** `bcrypt64_decode` as written. */
  method DecodeBcrypt(text: string) returns (r: Option<seq<Byte>>)
    ensures r == BcryptDecode(text)
  {
    PowersOfTwo();
    hide Feed, PlaceOf, CharOf, Places;
    var bits, count := 0, 0;
    var out: seq<Byte> := [];
    assert text[0..] == text;
    for i := 0 to |text|
      invariant AccOk(bits, count) && InAlphabet(Bcrypt64, text[..i])
      invariant InAlphabet(Bcrypt64, text) ==>
        Unpack(Places(Bcrypt64, text), 0, 0) == out + Unpack(Places(Bcrypt64, text[i..]), bits, count)
    {
      var v := PlaceOf(Bcrypt64, text[i]);
      CharOfPlace(Bcrypt64, text[i]);
      if v.None? { return None; }
      var (more, bits', count') := Feed(bits, count, v.value);
      if InAlphabet(Bcrypt64, text) {
        FirstPlace(text[i..]);
        assert text[i..][1..] == text[i + 1..];
        UnpackStep(Places(Bcrypt64, text[i..]), bits, count, more, bits', count');
      }
      bits, count, out := bits', count', out + more;
    }
    assert text[..|text|] == text && text[|text|..] == "" && out + [] == out;
    r := Some(out);
  }

  lemma FirstPlace(s: string)
    requires s != "" && InAlphabet(Bcrypt64, s)
    ensures InAlphabet(Bcrypt64, s[1..]) && Places(Bcrypt64, s)[0] == PlaceOf(Bcrypt64, s[0]).value
    ensures Places(Bcrypt64, s)[1..] == Places(Bcrypt64, s[1..])
  {
  }

  lemma PlacesOfSpell(a: Alphabet, vs: seq<int>)
    requires IsSextets(vs)
    ensures InAlphabet(a, Spell(a, vs)) && Places(a, Spell(a, vs)) == vs
  {
    forall i | 0 <= i < |vs| ensures PlaceOf(a, Spell(a, vs)[i]) == Some(vs[i]) { PlaceOfChar(a, vs[i]); }
  }

  /** Decoding bcrypt's base64 gives the octets back; sixteen of them take
      twenty-two characters. */
  lemma BcryptRoundTrip(b: seq<Byte>)
    ensures BcryptDecode(BcryptEncode(b)) == Some(b)
    ensures |b| == 16 ==> |BcryptEncode(b)| == 22
  {
    PowersOfTwo();
    PlacesOfSpell(Bcrypt64, Pack(b));
    UnpackOfPack(b);
    PackLength(b);
  }

  /** Any twenty-two characters of the alphabet are exactly sixteen octets. */
  lemma BcryptSaltIsSixteen(s: string)
    requires |s| == 22
    ensures BcryptDecode(s).Some? <==> InAlphabet(Bcrypt64, s)
    ensures BcryptDecode(s).Some? ==> |BcryptDecode(s).value| == 16
  {
    PowersOfTwo();
    if InAlphabet(Bcrypt64, s) { UnpackLength(Places(Bcrypt64, s), 0, 0); }
  }
}
