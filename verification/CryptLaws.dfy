/** What md5-crypt hashes and prints, octet by octet, and which salts `crypt` reads. */
module CryptLaws {
  import opened Text
  import opened Utf8
  import opened Codec
  import opened Crypt

  // --------------------------------------------------------- the first input

  lemma {:induction false} RepeatedIs(alt: seq<Byte>, n: nat)
    requires |alt| == 16
    ensures |Repeated(alt, n)| == n && forall i :: 0 <= i < n ==> Repeated(alt, n)[i] == alt[i % 16]
    decreases n
  {
    if n > 16 {
      RepeatedIs(alt, n - 16);
      var rest := Repeated(alt, n - 16);
      forall i | 0 <= i < n ensures Repeated(alt, n)[i] == alt[i % 16] {
        if i >= 16 {
          assert Repeated(alt, n)[i] == rest[i - 16];
          SixteenOn(i - 16);
        }
      }
    }
  }

  lemma SixteenOn(k: nat)
    ensures (k + 16) % 16 == k % 16
  {
  }

  /** How many bits a length takes. */
  function BitLength(n: nat): nat { if n == 0 then 0 else 1 + BitLength(n / 2) }

  /** One mark per bit of the length, lowest first: a zero for a one, the password's
      first octet for a zero. */
  lemma {:induction false} MarksAre(password: seq<Byte>, n: nat)
    requires password != []
    ensures |LengthMarks(password, n)| == BitLength(n)
    ensures forall j :: 0 <= j < BitLength(n) ==>
              LengthMarks(password, n)[j] == if n / Pow2(j) % 2 == 1 then 0 else password[0]
    decreases n
  {
    if n > 0 {
      MarksAre(password, n / 2);
      var rest := LengthMarks(password, n / 2);
      forall j | 0 <= j < BitLength(n)
        ensures LengthMarks(password, n)[j] == if n / Pow2(j) % 2 == 1 then 0 else password[0]
      {
        if j > 0 {
          assert LengthMarks(password, n)[j] == rest[j - 1];
          HalfAgain(n, Pow2(j - 1));
        }
      }
    }
  }

  lemma HalfAgain(n: nat, p: nat)
    requires p > 0
    ensures n / 2 / p == n / (2 * p)
  {
    var q, r := n / 2 / p, n / 2 % p;
    assert n / 2 == q * p + r;
    var x := n - 2 * (q * p);
    assert 0 <= x < 2 * p;
    assert n == q * (2 * p) + x;
    Quotient(q, x, 2 * p);
  }

  /** A digest written over and over. */
  predicate Cycles(s: seq<Byte>, alt: seq<Byte>) {
    |alt| == 16 && forall i :: 0 <= i < |s| ==> s[i] == alt[i % 16]
  }

  /** A mark per bit of the password's length. */
  predicate MarksLength(s: seq<Byte>, password: seq<Byte>) {
    var n := |password|;
    && |s| == BitLength(n)
    && (s != [] ==> n > 0)
    && forall j :: 0 <= j < |s| ==> s[j] == if n / Pow2(j) % 2 == 1 then 0 else password[0]
  }

  /** What the first digest is taken of, place by place: password, `$1$`, salt, as
      many octets of md5(password salt password) over and over as the password
      has, and a mark per bit of its length. */
  lemma FirstInputIs(h: Hashes, password: seq<Byte>, salt: seq<Byte>)
    requires HashesOk(h)
    ensures var s := FirstInput(h, password, salt);
            var n := |password|;
            var k := n + 3 + |salt|;
            && |s| >= k + n
            && s[..n] == password && s[n..n + 3] == [36, 49, 36] && s[n + 3..k] == salt
            && Cycles(s[k..k + n], h.md5(password + salt + password)) && MarksLength(s[k + n..], password)
  {
    var n := |password|;
    var alt := h.md5(password + salt + password);
    RepeatedIs(alt, n);
    MarksOfLength(password);
    assert Cycles(Repeated(alt, n), alt);
    hide Repeated, LengthMarks, HashesOk, Cycles, MarksLength;
    FivePieces(password, MD5_MAGIC, salt, Repeated(alt, n), LengthMarks(password, n));
  }

  lemma MarksOfLength(password: seq<Byte>)
    ensures MarksLength(LengthMarks(password, |password|), password)
  {
    if password == [] {
      NoMarks(password);
    } else {
      MarksAre(password, |password|);
      hide LengthMarks, BitLength, Pow2;
    }
  }

  lemma FivePieces(p: seq<Byte>, m: seq<Byte>, salt: seq<Byte>, a: seq<Byte>, b: seq<Byte>)
    requires |m| == 3
    ensures var s := p + m + salt + a + b;
            var n := |p|;
            var k := n + 3 + |salt|;
            && |s| == k + |a| + |b| && s[..n] == p && s[n..n + 3] == m && s[n + 3..k] == salt
            && s[k..k + |a|] == a && s[k + |a|..] == b
  {
  }

  lemma NoMarks(password: seq<Byte>)
    ensures LengthMarks(password, 0) == [] && BitLength(0) == 0
  {
  }

  // ----------------------------------------------------------------- a round

  /** What one round hashes: password and digest change places on odd rounds, the
      salt is left out every third and the password every seventh. */
  lemma RoundInputIs(password: seq<Byte>, salt: seq<Byte>, last: seq<Byte>, round: nat)
    requires |last| == 16
    ensures var s := RoundInput(password, salt, last, round);
            var head, end := if round % 2 == 1 then |password| else 16, if round % 2 == 1 then 16 else |password|;
            var mid := (if round % 3 == 0 then 0 else |salt|) + (if round % 7 == 0 then 0 else |password|);
            && |s| == head + mid + end
            && (if round % 2 == 1 then s[..head] == password && s[head + mid..] == last
                else s[..head] == last && s[head + mid..] == password)
            && (round % 3 != 0 ==> s[head..head + |salt|] == salt)
            && (round % 7 != 0 ==> s[head + mid - |password|..head + mid] == password)
  {
  }

  /** A thousand rounds, the first of the first digest and each of the one before. */
  lemma DigestRuns(h: Hashes, password: seq<Byte>, salt: seq<Byte>) returns (digests: seq<seq<Byte>>)
    requires HashesOk(h)
    ensures |digests| == 1001 && digests[0] == h.md5(FirstInput(h, password, salt))
    ensures forall k :: 0 <= k < 1000 ==> digests[k + 1] == h.md5(RoundInput(password, salt, digests[k], k))
    ensures Digest(h, password, salt) == digests[1000]
  {
    hide RoundInput, FirstInput;
    var first := h.md5(FirstInput(h, password, salt));
    digests := seq(1001, k requires 0 <= k < 1001 => AfterRounds(h, password, salt, first, k));
  }

  // ---------------------------------------------------------------- the tail

  /** The number four or two characters write, lowest six bits first. */
  function FromPlaces(s: string): int
  {
    if s == "" then 0
    else (if PlaceOf(Crypt64, s[0]).Some? then PlaceOf(Crypt64, s[0]).value else 0) + 64 * FromPlaces(s[1..])
  }

  lemma {:induction false} To64Reads(v: nat, n: nat)
    requires v < Pow64(n)
    ensures FromPlaces(To64(v, n)) == v
  {
    if n > 0 {
      PlaceOfChar(Crypt64, v % 64);
      To64Reads(v / 64, n - 1);
      assert To64(v, n)[1..] == To64(v / 64, n - 1);
    }
  }

  /** The tail's characters, read back, are the digest's octets three by three in
      md5-crypt's own order, and the twelfth alone. */
  lemma TailReads(d: seq<Byte>)
    requires |d| == 16
    ensures var t := Tail(d);
            && FromPlaces(t[0..4]) == Number(d, 0, 6, 12) && FromPlaces(t[4..8]) == Number(d, 1, 7, 13)
            && FromPlaces(t[8..12]) == Number(d, 2, 8, 14) && FromPlaces(t[12..16]) == Number(d, 3, 9, 15)
            && FromPlaces(t[16..20]) == Number(d, 4, 10, 5) && FromPlaces(t[20..22]) == d[11] as int
  {
    assert Pow64(1) == 64 && Pow64(2) == 4096 && Pow64(3) == 262144 && Pow64(4) == 16777216;
    hide FromPlaces, To64, Tail, Pow64;
    TailSlices(d);
    To64Reads(Triple(d[0], d[6], d[12]), 4);
    To64Reads(Triple(d[1], d[7], d[13]), 4);
    To64Reads(Triple(d[2], d[8], d[14]), 4);
    To64Reads(Triple(d[3], d[9], d[15]), 4);
    To64Reads(Triple(d[4], d[10], d[5]), 4);
    To64Reads(d[11], 2);
  }

  /** Three octets as one 24-bit number, high end first. */
  function Number(d: seq<Byte>, a: nat, b: nat, c: nat): int
    requires a < |d| && b < |d| && c < |d|
  {
    65536 * (d[a] as int) + 256 * (d[b] as int) + (d[c] as int)
  }

  // ------------------------------------------------------- which salts are read

  /** A cost as `u32` parsing takes it: digits, a plus sign before them or not. */
  predicate IsCost(s: string, cost: nat) {
    var digits := if s != "" && s[0] == '+' then s[1..] else s;
    digits != "" && AllDigits(digits) && Value(digits) == cost
  }

  /** A bcrypt salt reads if and only if it is a cost of 4 to 31, a dollar and at
      least 22 characters, the first 22 of them in bcrypt's alphabet. */
  lemma BcryptSaltIff(body: string, cost: nat, raw: seq<Byte>)
    ensures ReadBcryptSalt(body) == Some(BcryptSalt(cost, raw)) <==>
            exists costText, rest :: IsSaltText(body, costText, rest, cost, raw)
  {
    hide Value, BcryptDecode, UpToDollar;
    if ReadBcryptSalt(body) == Some(BcryptSalt(cost, raw)) {
      var head := UpToDollar(body);
      var rest := body[|head| + 1..];
      DollarEnds(body);
      assert body == head + "$" + rest;
      assert IsSaltText(body, head, rest, cost, raw);
    }
    if costText, rest :| IsSaltText(body, costText, rest, cost, raw) {
      assert body == costText + ("$" + rest);
      UpToDollarOf(costText, "$" + rest);
      assert body[|costText| + 1..] == rest;
    }
  }

  predicate IsSaltText(body: string, costText: string, rest: string, cost: nat, raw: seq<Byte>) {
    && body == costText + "$" + rest && '$' !in costText && IsCost(costText, cost) && 4 <= cost <= 31
    && |rest| >= 22 && BcryptDecode(rest[..22]) == Some(raw)
  }

  lemma {:induction false} DollarEnds(s: string)
    ensures |UpToDollar(s)| < |s| ==> s[|UpToDollar(s)|] == '$'
  {
    if s != "" && s[0] != '$' { DollarEnds(s[1..]); }
  }

  /** `crypt` answers a salt if and only if it begins with `$2a$`, `$2b$`, `$2x$` or
      `$2y$` and the rest reads, or begins with `$1$`; every other salt is refused. */
  lemma CryptAnswersIff(h: Hashes, password: seq<Byte>, salt: string)
    requires HashesOk(h) && IsAscii(salt)
    ensures CryptPassword(h, password, salt).Some? <==>
            || (("$2a$" <= salt || "$2b$" <= salt || "$2x$" <= salt || "$2y$" <= salt) && ReadBcryptSalt(salt[4..]).Some?)
            || "$1$" <= salt
  {
    hide ReadBcryptSalt, Md5CryptText, HashesOk;
    if |salt| >= 4 { assert "$1$" <= salt ==> salt[..4][1] == '1'; }
  }

  /** A bcrypt hash keeps its salt's version, cost and salt octets, and reads the
      first 72 octets of the password and no more. */
  lemma BcryptHashIs(h: Hashes, password: seq<Byte>, salt: string)
    requires HashesOk(h) && IsAscii(salt) && |salt| >= 4 && IsVersion(salt[..4]) && ReadBcryptSalt(salt[4..]).Some?
    ensures var s := ReadBcryptSalt(salt[4..]).value;
            var used := password[..if |password| < 72 then |password| else 72];
            CryptPassword(h, password, salt) ==
            Some(salt[..4] + [DigitChar(s.cost / 10), DigitChar(s.cost % 10)] + "$" + BcryptEncode(s.raw)
                 + h.bcrypt(used, s.cost, s.raw))
  {
    hide ReadBcryptSalt, HashesOk, IsAscii, Md5CryptText, ZeroFill, BcryptEncode;
    var s := ReadBcryptSalt(salt[4..]).value;
    TwoDigitCost(s.cost);
    UsedPassword(password);
    var used := password[..if |password| < 72 then |password| else 72];
    hide BcryptPassword, DigitChar;
    Joining(salt[..4], [DigitChar(s.cost / 10), DigitChar(s.cost % 10)], BcryptEncode(s.raw), h.bcrypt(used, s.cost, s.raw));
  }

  lemma UsedPassword(password: seq<Byte>)
    ensures BcryptPassword(password) == password[..if |password| < 72 then |password| else 72]
  {
  }

  lemma Joining(a: string, b: string, c: string, d: string)
    ensures a + (b + "$" + c + d) == a + b + "$" + c + d
  {
  }

  lemma TwoDigitCost(cost: nat)
    requires cost < 100
    ensures ZeroFill(cost, 2) == [DigitChar(cost / 10), DigitChar(cost % 10)]
  {
    assert Pow10(2) == 100;
    ZeroFillIsPad(cost, 2);
    assert Pad(cost / 10, 1) == [DigitChar(cost / 10 % 10)] by { assert Pad(cost / 100, 0) == ""; }
  }

  /** A generated md5 salt: a character of the crypt alphabet per octet drawn, its
      low six bits. */
  lemma Md5SaltLetters(random: seq<Byte>, i: nat)
    requires i < |random|
    ensures var text := GenSalt("md5", None, random);
            text.Some? && |text.value| == 3 + |random| && text.value[3 + i] == Letters(Crypt64)[random[i] % 64]
  {
    assert "md5" != "bf";
    AlphabetIsWritten(Crypt64, random[i] % 64);
    hide Letters, CharOf;
  }

  /** `gen_salt` answers `bf` with a cost of 4 to 31, 6 if none is given, and `md5`;
      every other kind is refused. */
  lemma GenSaltIff(kind: string, rounds: Option<int>, random: seq<Byte>)
    ensures GenSalt(kind, rounds, random).Some? <==>
            kind == "md5" || (kind == "bf" && (rounds.None? || 4 <= rounds.value <= 31))
    ensures kind == "bf" && GenSalt(kind, rounds, random).Some? ==> "$2a$" <= GenSalt(kind, rounds, random).value
  {
    hide ZeroFill, BcryptEncode, Spell;
    assert "md5" != "bf";
  }
}
