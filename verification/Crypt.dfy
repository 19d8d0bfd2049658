/** `crypt` and `gen_salt`: md5-crypt and bcrypt over hash functions that are left
    uninterpreted, and the property a stored password rests on. */
module Crypt {
  import opened Text
  import opened Utf8
  import opened Codec

  /** The two foreign hashes: MD5, and bcrypt's 31-character digest of a password,
      a cost and sixteen octets of salt. */
  datatype Hashes = Hashes(md5: seq<Byte> -> seq<Byte>, bcrypt: (seq<Byte>, nat, seq<Byte>) -> string)

  predicate IsAscii(s: string) { forall i :: 0 <= i < |s| ==> s[i] as int < 128 }

  ghost predicate HashesOk(h: Hashes) {
    (forall x :: |h.md5(x)| == 16) && (forall p, cost, raw :: IsAscii(h.bcrypt(p, cost, raw)))
  }

  function Octets(s: string): (b: seq<Byte>)
    requires IsAscii(s)
    ensures |b| == |s|
  {
    seq(|s|, i requires 0 <= i < |s| => s[i] as int)
  }

  // --------------------------------------------------------------- md5-crypt

  /** Up to the first dollar. */
  function UpToDollar(s: string): (r: string)
    ensures '$' !in r && r <= s
  {
    if s == "" || s[0] == '$' then "" else [s[0]] + UpToDollar(s[1..])
  }

  /** At most eight characters of salt, none of them a dollar. */
  function Md5Salt(rest: string): (salt: string)
    ensures |salt| <= 8 && '$' !in salt && salt <= rest
  {
    var salt := UpToDollar(rest);
    if |salt| <= 8 then salt else salt[..8]
  }

  function Repeated(alt: seq<Byte>, left: nat): seq<Byte>
    requires |alt| == 16
    decreases left
  {
    if left == 0 then [] else if left <= 16 then alt[..left] else alt + Repeated(alt, left - 16)
  }

  function LengthMarks(password: seq<Byte>, i: nat): seq<Byte> {
    if i == 0 then []
    else (if i % 2 == 1 then [0] else if password == [] then [] else password[..1]) + LengthMarks(password, i / 2)
  }

  const MD5_MAGIC: seq<Byte> := [36, 49, 36]

  /** What the first digest is taken of. */
  function FirstInput(h: Hashes, password: seq<Byte>, salt: seq<Byte>): seq<Byte>
    requires |h.md5(password + salt + password)| == 16
  {
    password + MD5_MAGIC + salt + Repeated(h.md5(password + salt + password), |password|)
    + LengthMarks(password, |password|)
  }

  function RoundInput(password: seq<Byte>, salt: seq<Byte>, last: seq<Byte>, round: nat): seq<Byte> {
    (if round % 2 == 1 then password else last)
    + (if round % 3 != 0 then salt else [])
    + (if round % 7 != 0 then password else [])
    + (if round % 2 == 1 then last else password)
  }

  function AfterRounds(h: Hashes, password: seq<Byte>, salt: seq<Byte>, first: seq<Byte>, n: nat): seq<Byte> {
    if n == 0 then first
    else h.md5(RoundInput(password, salt, AfterRounds(h, password, salt, first, n - 1), n - 1))
  }

  function Digest(h: Hashes, password: seq<Byte>, salt: seq<Byte>): seq<Byte>
    requires |h.md5(password + salt + password)| == 16
  {
    AfterRounds(h, password, salt, h.md5(FirstInput(h, password, salt)), 1000)
  }

  /** `n` characters of a value, lowest six bits first. */
  function To64(v: nat, n: nat): (s: string)
    ensures |s| == n
  {
    if n == 0 then "" else [CharOf(Crypt64, v % 64)] + To64(v / 64, n - 1)
  }

  function Triple(a: Byte, b: Byte, c: Byte): nat { (a as int) * 65536 + (b as int) * 256 + (c as int) }

  /** The 22-character tail, in md5-crypt's own order of octets. */
  function Tail(d: seq<Byte>): (s: string)
    requires |d| == 16
    ensures |s| == 22
  {
    To64(Triple(d[0], d[6], d[12]), 4) + To64(Triple(d[1], d[7], d[13]), 4) + To64(Triple(d[2], d[8], d[14]), 4)
    + To64(Triple(d[3], d[9], d[15]), 4) + To64(Triple(d[4], d[10], d[5]), 4) + To64(d[11], 2)
  }

  function Md5CryptText(h: Hashes, password: seq<Byte>, rest: string): string
    requires HashesOk(h) && IsAscii(Md5Salt(rest))
  {
    var salt := Md5Salt(rest);
    var d := Digest(h, password, Octets(salt));
    assert |d| == 16;
    "$1$" + salt + "$" + Tail(d)
  }

  /** The loop that lays the first digest along the password's length. */
  method PushRepeated(input: seq<Byte>, alt: seq<Byte>, length: nat) returns (out: seq<Byte>)
    requires |alt| == 16
    ensures out == input + Repeated(alt, length)
  {
    out := input;
    var left := length;
    while left > 0
      invariant 0 <= left && input + Repeated(alt, length) == out + Repeated(alt, left)
    {
      var take := if left < 16 then left else 16;
      assert take == 16 ==> alt[..16] == alt;
      assert take < 16 || left == 16 ==> Repeated(alt, left) == alt[..take] + Repeated(alt, left - take);
      assert out + Repeated(alt, left) == out + alt[..take] + Repeated(alt, left - take);
      out := out + alt[..take];
      left := left - take;
    }
    assert out + [] == out;
  }

  /** The loop over the bits of the password's length. */
  method PushLengthMarks(input: seq<Byte>, password: seq<Byte>) returns (out: seq<Byte>)
    ensures out == input + LengthMarks(password, |password|)
  {
    out := input;
    var i := |password|;
    while i > 0
      invariant 0 <= i && input + LengthMarks(password, |password|) == out + LengthMarks(password, i)
    {
      var mark := if i % 2 == 1 then [0] else if password == [] then [] else password[..1];
      assert out + (mark + LengthMarks(password, i / 2)) == out + mark + LengthMarks(password, i / 2);
      out := out + mark;
      i := i / 2;
    }
    assert out + [] == out;
  }

  /** `md5_crypt` as written. */
  method Md5Crypt(h: Hashes, password: seq<Byte>, rest: string) returns (out: string)
    requires HashesOk(h) && IsAscii(Md5Salt(rest))
    ensures out == Md5CryptText(h, password, rest)
  {
    hide Tail, Md5Salt, Repeated, LengthMarks;
    var text := Md5Salt(rest);
    var salt := Octets(text);
    var alt := h.md5(password + salt + password);
    var input := PushRepeated(password + MD5_MAGIC + salt, alt, |password|);
    input := PushLengthMarks(input, password);
    var last := h.md5(input);
    ghost var first := last;
    for round := 0 to 1000
      invariant last == AfterRounds(h, password, salt, first, round) && |last| == 16
    {
      var next := if round % 2 == 1 then password else last;
      if round % 3 != 0 { next := next + salt; }
      if round % 7 != 0 { next := next + password; }
      next := next + (if round % 2 == 1 then last else password);
      assert next == RoundInput(password, salt, last, round);
      last := h.md5(next);
    }
    out := "$1$" + text + "$" + Tail(last);
  }

  // ------------------------------------------------------ the tail is faithful

  function Pow64(n: nat): (p: nat)
    ensures p > 0
  {
    if n == 0 then 1 else 64 * Pow64(n - 1)
  }

  lemma {:induction false} To64Injective(v: nat, w: nat, n: nat)
    requires v < Pow64(n) && w < Pow64(n) && To64(v, n) == To64(w, n)
    ensures v == w
  {
    if n > 0 {
      assert To64(v, n)[0] == To64(w, n)[0];
      PlaceOfChar(Crypt64, v % 64);
      PlaceOfChar(Crypt64, w % 64);
      assert To64(v, n)[1..] == To64(v / 64, n - 1) && To64(w, n)[1..] == To64(w / 64, n - 1);
      To64Injective(v / 64, w / 64, n - 1);
    }
  }

  lemma TripleInjective(a: Byte, b: Byte, c: Byte, x: Byte, y: Byte, z: Byte)
    requires To64(Triple(a, b, c), 4) == To64(Triple(x, y, z), 4)
    ensures a == x && b == y && c == z
  {
    assert Pow64(1) == 64 && Pow64(2) == 4096 && Pow64(3) == 262144 && Pow64(4) == 16777216;
    To64Injective(Triple(a, b, c), Triple(x, y, z), 4);
  }

  /** Two digests print the same tail only if they are the same digest. */
  lemma TailIsInjective(d: seq<Byte>, e: seq<Byte>)
    requires |d| == 16 && |e| == 16 && Tail(d) == Tail(e)
    ensures d == e
  {
    hide To64, Triple;
    TailPiece(d, e);
    TripleInjective(d[0], d[6], d[12], e[0], e[6], e[12]);
    TripleInjective(d[1], d[7], d[13], e[1], e[7], e[13]);
    TripleInjective(d[2], d[8], d[14], e[2], e[8], e[14]);
    TripleInjective(d[3], d[9], d[15], e[3], e[9], e[15]);
    TripleInjective(d[4], d[10], d[5], e[4], e[10], e[5]);
    LastInjective(d[11], e[11]);
  }

  lemma LastInjective(a: Byte, x: Byte)
    requires To64(a, 2) == To64(x, 2)
    ensures a == x
  {
    assert Pow64(1) == 64 && Pow64(2) == 4096;
    To64Injective(a, x, 2);
  }

  /** The pieces of equal tails are equal. */
  lemma TailPiece(d: seq<Byte>, e: seq<Byte>)
    requires |d| == 16 && |e| == 16 && Tail(d) == Tail(e)
    ensures To64(Triple(d[0], d[6], d[12]), 4) == To64(Triple(e[0], e[6], e[12]), 4)
    ensures To64(Triple(d[1], d[7], d[13]), 4) == To64(Triple(e[1], e[7], e[13]), 4)
    ensures To64(Triple(d[2], d[8], d[14]), 4) == To64(Triple(e[2], e[8], e[14]), 4)
    ensures To64(Triple(d[3], d[9], d[15]), 4) == To64(Triple(e[3], e[9], e[15]), 4)
    ensures To64(Triple(d[4], d[10], d[5]), 4) == To64(Triple(e[4], e[10], e[5]), 4)
    ensures To64(d[11], 2) == To64(e[11], 2)
  {
    TailSlices(d);
    TailSlices(e);
    hide To64, Triple, Tail;
  }

  lemma TailSlices(d: seq<Byte>)
    requires |d| == 16
    ensures var t := Tail(d);
            && t[0..4] == To64(Triple(d[0], d[6], d[12]), 4)
            && t[4..8] == To64(Triple(d[1], d[7], d[13]), 4)
            && t[8..12] == To64(Triple(d[2], d[8], d[14]), 4)
            && t[12..16] == To64(Triple(d[3], d[9], d[15]), 4)
            && t[16..20] == To64(Triple(d[4], d[10], d[5]), 4)
            && t[20..22] == To64(d[11], 2)
  {
    hide To64, Triple;
    SixPieces(To64(Triple(d[0], d[6], d[12]), 4), To64(Triple(d[1], d[7], d[13]), 4),
              To64(Triple(d[2], d[8], d[14]), 4), To64(Triple(d[3], d[9], d[15]), 4),
              To64(Triple(d[4], d[10], d[5]), 4), To64(d[11], 2));
  }

  lemma SixPieces(a: string, b: string, c: string, d: string, e: string, f: string)
    requires |a| == 4 && |b| == 4 && |c| == 4 && |d| == 4 && |e| == 4 && |f| == 2
    ensures var t := a + b + c + d + e + f;
            && t[0..4] == a && t[4..8] == b && t[8..12] == c && t[12..16] == d && t[16..20] == e && t[20..22] == f
  {
  }

  // ------------------------------------------------------------------ bcrypt

  predicate IsVersion(v: string) { v == "$2a$" || v == "$2b$" || v == "$2x$" || v == "$2y$" }

  /** `str::parse::<u32>`: no minus sign. */
  function ParseUnsigned(s: string): Option<nat> {
    var digits := if s != "" && s[0] == '+' then s[1..] else s;
    if digits == "" || !AllDigits(digits) then None
    else
      ValueBound(digits);
      if Value(digits) < 0x1_0000_0000 then Some(Value(digits)) else None
  }

  /** `split_once('$')`. */
  function SplitDollar(s: string): Option<(string, string)> {
    var head := UpToDollar(s);
    if |head| == |s| then None else Some((head, s[|head| + 1..]))
  }

  datatype BcryptSalt = BcryptSalt(cost: nat, raw: seq<Byte>)

  /** The salt parsing of `bcrypt_crypt`, after the version. */
  function ReadBcryptSalt(body: string): (r: Option<BcryptSalt>)
    ensures r.Some? ==> 4 <= r.value.cost <= 31 && |r.value.raw| == 16
  {
    var split := SplitDollar(body);
    if split.None? then None
    else
      var (costText, rest) := split.value;
      var cost := ParseUnsigned(costText);
      if cost.None? || !(4 <= cost.value <= 31) || |rest| < 22 then None
      else
        var raw := BcryptDecode(rest[..22]);
        BcryptSaltIsSixteen(rest[..22]);
        if raw.None? then None else Some(BcryptSalt(cost.value, raw.value))
  }

  /** The hash text: version, two-digit cost, salt, digest. */
  function BcryptText(version: string, salt: BcryptSalt, digest: string): string {
    version + (ZeroFill(salt.cost, 2) + "$" + BcryptEncode(salt.raw) + digest)
  }

  /** bcrypt reads at most 72 octets of a password. */
  function BcryptPassword(password: seq<Byte>): seq<Byte> {
    if |password| <= 72 then password else password[..72]
  }

  /** `crypt`; `None` stands for a refused salt. */
  function CryptPassword(h: Hashes, password: seq<Byte>, salt: string): Option<string>
    requires HashesOk(h) && IsAscii(salt)
  {
    if |salt| >= 4 && IsVersion(salt[..4]) then
      var parsed := ReadBcryptSalt(salt[4..]);
      if parsed.None? then None
      else
        var s := parsed.value;
        Some(BcryptText(salt[..4], s, h.bcrypt(BcryptPassword(password), s.cost, s.raw)))
    else if "$1$" <= salt then
      assert IsAscii(Md5Salt(salt[3..]));
      Some(Md5CryptText(h, password, salt[3..]))
    else None
  }

  /** `gen_salt`, given its random octets. */
  function GenSalt(kind: string, rounds: Option<int>, random: seq<Byte>): Option<string> {
    if kind == "bf" then
      var r := if rounds.Some? then rounds.value else 6;
      if !(4 <= r <= 31) then None
      else Some("$2a$" + (ZeroFill(r, 2) + "$" + BcryptEncode(random)))
    else if kind == "md5" then
      Some("$1$" + Spell(Crypt64, seq(|random|, i requires 0 <= i < |random| => random[i] as int % 64)))
    else None
  }

  // ------------------------------------------------------------ the theorems

  lemma {:induction false} UpToDollarOf(head: string, tail: string)
    requires '$' !in head && (tail == "" || tail[0] == '$')
    ensures UpToDollar(head + tail) == head
  {
    if head == "" {
      assert head + tail == tail;
    } else {
      assert (head + tail)[1..] == head[1..] + tail;
      UpToDollarOf(head[1..], tail);
    }
  }

  lemma CostReads(cost: nat)
    requires 4 <= cost <= 31
    ensures '$' !in ZeroFill(cost, 2) && ParseUnsigned(ZeroFill(cost, 2)) == Some(cost)
  {
    assert Pow10(2) == 100;
    ZeroFillIsPad(cost, 2);
    ValueOfPad(cost, 2);
    var s := Pad(cost, 2);
    assert IsDigit(s[0]) && IsDigit(s[1]) && s == [s[0], s[1]];
  }

  /** A bcrypt salt text, alone or with a digest after it, reads back as the cost
      and the salt octets it was made of. */
  lemma BcryptSaltReads(cost: nat, raw: seq<Byte>, digest: string)
    requires 4 <= cost <= 31 && |raw| == 16
    ensures ReadBcryptSalt(ZeroFill(cost, 2) + "$" + BcryptEncode(raw) + digest) == Some(BcryptSalt(cost, raw))
  {
    hide ZeroFill, BcryptEncode, BcryptDecode, ParseUnsigned;
    var head, salt := ZeroFill(cost, 2), BcryptEncode(raw);
    var body := head + "$" + salt + digest;
    CostReads(cost);
    assert body == head + ("$" + salt + digest);
    UpToDollarOf(head, "$" + salt + digest);
    assert body[|head| + 1..] == salt + digest;
    BcryptRoundTrip(raw);
    assert (salt + digest)[..22] == salt;
  }

  /** Every `gen_salt('bf', r)` text is read by `crypt` as cost r and the sixteen
      octets drawn. */
  lemma GenSaltReadsBack(rounds: Option<int>, random: seq<Byte>)
    requires |random| == 16
    ensures var r := if rounds.Some? then rounds.value else 6;
            var text := GenSalt("bf", rounds, random);
            && (text.Some? <==> 4 <= r <= 31)
            && (text.Some? ==>
                  |text.value| >= 4 && IsVersion(text.value[..4])
                  && ReadBcryptSalt(text.value[4..]) == Some(BcryptSalt(r, random)))
  {
    hide ZeroFill, BcryptEncode, ReadBcryptSalt;
    var r := if rounds.Some? then rounds.value else 6;
    if 4 <= r <= 31 {
      BcryptSaltReads(r, random, "");
      var body := ZeroFill(r, 2) + "$" + BcryptEncode(random);
      assert body + "" == body;
      assert ("$2a$" + body)[..4] == "$2a$" && ("$2a$" + body)[4..] == body;
    }
  }

  /** Every `gen_salt('md5')` salt is used whole. */
  lemma Md5SaltIsUsedWhole(random: seq<Byte>)
    requires |random| == 8
    ensures var text := GenSalt("md5", None, random);
            text.Some? && "$1$" <= text.value && Md5Salt(text.value[3..]) == text.value[3..]
  {
    var vs := seq(|random|, i requires 0 <= i < |random| => random[i] as int % 64);
    var s := Spell(Crypt64, vs);
    forall i | 0 <= i < |s| ensures s[i] != '$' { PlaceOfChar(Crypt64, vs[i]); }
    UpToDollarOf(s, "");
    assert s + "" == s && ("$1$" + s)[3..] == s;
    assert "md5" != "bf";
  }

  lemma Md5Stable(h: Hashes, password: seq<Byte>, rest: string)
    requires HashesOk(h) && IsAscii(Md5Salt(rest))
    ensures var out := Md5CryptText(h, password, rest);
            "$1$" <= out && Md5Salt(out[3..]) == Md5Salt(rest)
  {
    hide Tail, Digest;
    var salt := Md5Salt(rest);
    var out := Md5CryptText(h, password, rest);
    var tail := out[3 + |salt|..];
    assert out == "$1$" + salt + tail && tail[0] == '$';
    assert out[3..] == salt + tail;
    UpToDollarOf(salt, tail);
  }

  /** A stored password verifies: hashing again under the hash itself gives the
      hash, for md5-crypt and for bcrypt, whatever the salt's form. */
  lemma StoredHashVerifies(h: Hashes, password: seq<Byte>, salt: string)
    requires HashesOk(h) && IsAscii(salt) && CryptPassword(h, password, salt).Some?
    ensures IsAscii(CryptPassword(h, password, salt).value)
    ensures CryptPassword(h, password, CryptPassword(h, password, salt).value) == CryptPassword(h, password, salt)
  {
    HashIsAscii(h, password, salt);
    if |salt| >= 4 && IsVersion(salt[..4]) {
      BcryptVerifies(h, password, salt);
    } else {
      Md5Verifies(h, password, salt);
    }
  }

  lemma BcryptVerifies(h: Hashes, password: seq<Byte>, salt: string)
    requires HashesOk(h) && IsAscii(salt) && CryptPassword(h, password, salt).Some?
    requires |salt| >= 4 && IsVersion(salt[..4]) && IsAscii(CryptPassword(h, password, salt).value)
    ensures CryptPassword(h, password, CryptPassword(h, password, salt).value) == CryptPassword(h, password, salt)
  {
    hide ReadBcryptSalt, HashesOk, IsAscii, Md5CryptText, ZeroFill, BcryptEncode;
    var out := CryptPassword(h, password, salt).value;
    var s := ReadBcryptSalt(salt[4..]).value;
    var digest := h.bcrypt(BcryptPassword(password), s.cost, s.raw);
    BcryptSaltReads(s.cost, s.raw, digest);
    var body := ZeroFill(s.cost, 2) + "$" + BcryptEncode(s.raw) + digest;
    assert out == salt[..4] + body;
    assert out[..4] == salt[..4] && out[4..] == body;
  }

  lemma Md5Verifies(h: Hashes, password: seq<Byte>, salt: string)
    requires HashesOk(h) && IsAscii(salt) && CryptPassword(h, password, salt).Some?
    requires !(|salt| >= 4 && IsVersion(salt[..4])) && IsAscii(CryptPassword(h, password, salt).value)
    ensures CryptPassword(h, password, CryptPassword(h, password, salt).value) == CryptPassword(h, password, salt)
  {
    Md5Branch(h, password, salt);
    var out := CryptPassword(h, password, salt).value;
    Md5Stable(h, password, salt[3..]);
    assert out[1] == '1';
    NoVersion(out);
    Md5Branch(h, password, out);
    hide HashesOk, Md5CryptText, Md5Salt, IsAscii, CryptPassword;
    SameSaltSameHash(h, password, salt[3..], out[3..]);
  }

  lemma NoVersion(salt: string)
    requires |salt| >= 2 && salt[1] == '1'
    ensures !(|salt| >= 4 && IsVersion(salt[..4]))
  {
    if |salt| >= 4 { assert salt[..4][1] == '1'; }
  }

  lemma Md5Branch(h: Hashes, password: seq<Byte>, salt: string)
    requires HashesOk(h) && IsAscii(salt) && !(|salt| >= 4 && IsVersion(salt[..4]))
    ensures CryptPassword(h, password, salt).Some? <==> "$1$" <= salt
    ensures "$1$" <= salt ==>
      IsAscii(Md5Salt(salt[3..])) && CryptPassword(h, password, salt) == Some(Md5CryptText(h, password, salt[3..]))
  {
    hide HashesOk, IsVersion, Md5CryptText;
  }

  lemma HashIsAscii(h: Hashes, password: seq<Byte>, salt: string)
    requires HashesOk(h) && IsAscii(salt) && CryptPassword(h, password, salt).Some?
    ensures IsAscii(CryptPassword(h, password, salt).value)
  {
    hide Digest, ReadBcryptSalt, Pack, Spell, Tail;
    if |salt| >= 4 && IsVersion(salt[..4]) {
      var s := ReadBcryptSalt(salt[4..]).value;
      SpellIsAscii(Bcrypt64, Pack(s.raw));
      DigitsAreAscii(ZeroFill(s.cost, 2));
      var digest := h.bcrypt(BcryptPassword(password), s.cost, s.raw);
      assert IsAscii(digest);
      AsciiConcat(ZeroFill(s.cost, 2), "$");
      AsciiConcat(ZeroFill(s.cost, 2) + "$", BcryptEncode(s.raw));
      AsciiConcat(ZeroFill(s.cost, 2) + "$" + BcryptEncode(s.raw), digest);
      AsciiConcat(salt[..4], ZeroFill(s.cost, 2) + "$" + BcryptEncode(s.raw) + digest);
    } else {
      var text := Md5Salt(salt[3..]);
      var d := Digest(h, password, Octets(text));
      DigestLength(h, password, Octets(text));
      TailIsAscii(d);
      AsciiConcat("$1$", text);
      AsciiConcat("$1$" + text, "$");
      AsciiConcat("$1$" + text + "$", Tail(d));
    }
  }

  lemma DigestLength(h: Hashes, password: seq<Byte>, salt: seq<Byte>)
    requires HashesOk(h)
    ensures |Digest(h, password, salt)| == 16
  {
  }

  lemma AsciiConcat(a: string, b: string)
    requires IsAscii(a) && IsAscii(b)
    ensures IsAscii(a + b)
  {
  }

  lemma DigitsAreAscii(s: string)
    requires AllDigits(s)
    ensures IsAscii(s)
  {
  }

  lemma SpellIsAscii(a: Alphabet, vs: seq<int>)
    requires IsSextets(vs)
    ensures IsAscii(Spell(a, vs))
  {
    forall i | 0 <= i < |vs| ensures Spell(a, vs)[i] as int < 128 { PlaceOfChar(a, vs[i]); }
  }

  lemma {:induction false} To64IsAscii(v: nat, n: nat)
    ensures IsAscii(To64(v, n))
  {
    if n > 0 {
      PlaceOfChar(Crypt64, v % 64);
      To64IsAscii(v / 64, n - 1);
    }
  }

  lemma TailIsAscii(d: seq<Byte>)
    requires |d| == 16
    ensures IsAscii(Tail(d))
  {
    hide To64, Triple;
    var a, b, c := Triple(d[0], d[6], d[12]), Triple(d[1], d[7], d[13]), Triple(d[2], d[8], d[14]);
    var e, f := Triple(d[3], d[9], d[15]), Triple(d[4], d[10], d[5]);
    To64IsAscii(a, 4);
    To64IsAscii(b, 4);
    To64IsAscii(c, 4);
    To64IsAscii(e, 4);
    To64IsAscii(f, 4);
    To64IsAscii(d[11], 2);
    AsciiConcat(To64(a, 4), To64(b, 4));
    AsciiConcat(To64(a, 4) + To64(b, 4), To64(c, 4));
    AsciiConcat(To64(a, 4) + To64(b, 4) + To64(c, 4), To64(e, 4));
    AsciiConcat(To64(a, 4) + To64(b, 4) + To64(c, 4) + To64(e, 4), To64(f, 4));
    AsciiConcat(To64(a, 4) + To64(b, 4) + To64(c, 4) + To64(e, 4) + To64(f, 4), To64(d[11], 2));
  }

  lemma SameSaltSameHash(h: Hashes, password: seq<Byte>, a: string, b: string)
    requires HashesOk(h) && IsAscii(Md5Salt(a)) && Md5Salt(a) == Md5Salt(b)
    ensures Md5CryptText(h, password, a) == Md5CryptText(h, password, b)
  {
  }
}
