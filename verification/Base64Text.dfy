/** PostgreSQL's `encode` and `decode`: base64 (section 4 of RFC 4648) broken into
    76-character lines, and hex. */
module Base64Text {
  import opened Text
  import opened Utf8
  import opened Codec

  const LINE: nat := 76

  // ----------------------------------------------------------------- encoding

  function Pads(k: nat): (s: string)
    ensures |s| == k && forall i :: 0 <= i < k ==> s[i] == '='
  {
    seq(k, i => '=')
  }

  /** The four characters of one chunk. */
  function Group(c: seq<Byte>): (s: string)
    requires 1 <= |c| <= 3
    ensures |s| == 4
  {
    Spell(Base64, PackChunk(c)) + Pads(3 - |c|)
  }

  /** The encoding with no line breaks. */
  function Unbroken(b: seq<Byte>): string {
    if b == [] then "" else if |b| <= 3 then Group(b) else Group(b[..3]) + Unbroken(b[3..])
  }

  /** A newline after every 76 characters that more characters follow. */
  function Lines(s: string): string
    decreases |s|
  {
    if |s| <= LINE then s else s[..LINE] + "\n" + Lines(s[LINE..])
  }

  function EncodeText(b: seq<Byte>): string { Lines(Unbroken(b)) }

  lemma {:induction false} UnbrokenAppend(a: seq<Byte>, c: seq<Byte>)
    requires |a| % 3 == 0 && 1 <= |c| <= 3
    ensures Unbroken(a + c) == Unbroken(a) + Group(c)
    decreases |a|
  {
    hide Group;
    if a == [] {
      assert a + c == c;
    } else if |a| == 3 {
      assert (a + c)[..3] == a && (a + c)[3..] == c;
    } else {
      assert (a + c)[..3] == a[..3] && (a + c)[3..] == a[3..] + c;
      UnbrokenAppend(a[3..], c);
      assert Unbroken(a + c) == Group(a[..3]) + (Unbroken(a[3..]) + Group(c));
    }
  }

  /** Appending a group to `q` full lines and `r` characters starts a new line
      exactly when the last one is full. */
  lemma {:induction false} LinesAppend(s: string, g: string, q: nat, r: nat)
    requires |s| == LINE * q + r && r < LINE && r % 4 == 0 && |g| == 4
    ensures Lines(s + g) == if q > 0 && r == 0 then Lines(s) + "\n" + g else Lines(s) + g
    decreases |s|
  {
    if q == 0 {
      assert |s + g| <= LINE;
    } else if q == 1 && r == 0 {
      assert (s + g)[..LINE] == s && (s + g)[LINE..] == g;
    } else {
      assert (s + g)[..LINE] == s[..LINE] && (s + g)[LINE..] == s[LINE..] + g;
      LinesAppend(s[LINE..], g, q - 1, r);
      LinesJoin(s[..LINE] + "\n", Lines(s[LINE..]), g);
    }
  }

  lemma LinesJoin(front: string, l: string, g: string)
    ensures front + (l + "\n" + g) == front + l + "\n" + g
    ensures front + (l + g) == front + l + g
  {
  }

  /** The inner loop of `encode`: a character per sextet, then padding. */
  method PushGroup(chunk: seq<Byte>, out: string) returns (r: string)
    requires 1 <= |chunk| <= 3
    ensures r == out + Group(chunk)
  {
    r := out;
    var vs := PackChunk(chunk);
    for i := 0 to 4
      invariant r == out + Group(chunk)[..i]
    {
      if i <= |chunk| {
        r := r + [CharOf(Base64, vs[i])];
      } else {
        r := r + "=";
      }
    }
  }

  /** The base64 arm of `encode` as written. */
  method Encode(bytes: seq<Byte>) returns (out: string)
    ensures out == EncodeText(bytes)
  {
    hide Group, Lines, Unbroken;
    out := "";
    var line, k := 0, 0;
    ghost var q, r := 0, 0;
    assert bytes[..0] == [];
    NothingEncoded();
    while k < |bytes|
      invariant k <= |bytes| && (k < |bytes| ==> k % 3 == 0)
      invariant out == Lines(Unbroken(bytes[..k])) && |Unbroken(bytes[..k])| == LINE * q + r
      invariant 0 <= q && 0 <= r < LINE && r % 4 == 0
      invariant line == if q > 0 && r == 0 then LINE else r
    {
      var end := if k + 3 <= |bytes| then k + 3 else |bytes|;
      var chunk := bytes[k..end];
      assert bytes[..end] == bytes[..k] + chunk;
      UnbrokenAppend(bytes[..k], chunk);
      LinesAppend(Unbroken(bytes[..k]), Group(chunk), q, r);
      if line == LINE {
        out := out + "\n";
        line := 0;
      }
      out := PushGroup(chunk, out);
      line := line + 4;
      if r + 4 == LINE { q, r := q + 1, 0; } else { r := r + 4; }
      k := end;
    }
    assert bytes[..k] == bytes;
  }

  lemma NothingEncoded()
    ensures Unbroken([]) == "" && Lines("") == ""
  {
  }

  // ----------------------------------------------------------------- decoding

  /** The decoder from an accumulator on: white space is passed over, padding
      ends the text, a foreign character is an error. */
  function Read(text: string, bits: int, count: nat): Option<seq<Byte>>
    requires AccOk(bits, count)
    decreases |text|
  {
    if text == "" then Some([])
    else
      var c := text[0];
      if IsSpace(c) then Read(text[1..], bits, count)
      else if c == '=' then Some([])
      else
        var v := PlaceOf(Base64, c);
        CharOfPlace(Base64, c);
        if v.None? then None
        else
          var (out, bits', count') := Feed(bits, count, v.value);
          var rest := Read(text[1..], bits', count');
          if rest.None? then None else Some(out + rest.value)
  }

  function DecodeText(text: string): Option<seq<Byte>> {
    PowersOfTwo();
    Read(text, 0, 0)
  }

  /** The base64 arm of `decode` as written: the accumulator never holds more
      than `count` bits. */
  method Decode(text: string) returns (r: Option<seq<Byte>>)
    ensures r == DecodeText(text)
  {
    PowersOfTwo();
    hide Feed, PlaceOf, CharOf, IsSpace;
    var bits, count := 0, 0;
    var out: seq<Byte> := [];
    var i := 0;
    assert text[0..] == text;
    ghost var whole := Read(text, 0, 0);
    assert whole.Some? ==> [] + whole.value == whole.value;
    while i < |text|
      invariant i <= |text| && AccOk(bits, count)
      invariant whole == match Read(text[i..], bits, count) case None => None case Some(rest) => Some(out + rest)
    {
      var c := text[i];
      assert text[i..][1..] == text[i + 1..];
      if !IsSpace(c) {
        if c == '=' { break; }
        var v := PlaceOf(Base64, c);
        CharOfPlace(Base64, c);
        if v.None? { return None; }
        ghost var before := out;
        var (more, bits', count') := Feed(bits, count, v.value);
        ghost var rest := Read(text[i + 1..], bits', count');
        assert rest.Some? ==> out + (more + rest.value) == out + more + rest.value;
        bits, count, out := bits', count', out + more;
      }
      i := i + 1;
    }
    assert out + [] == out;
    r := Some(out);
  }

  // --------------------------------------------------------------- round trip

  lemma {:induction false} UnbrokenIsPacked(b: seq<Byte>)
    ensures Unbroken(b) == Spell(Base64, Pack(b)) + Pads(if |b| % 3 == 0 then 0 else 3 - |b| % 3)
  {
    hide PackChunk, Spell;
    if b == [] {
      assert Spell(Base64, []) + Pads(0) == "";
    } else if |b| > 3 {
      UnbrokenIsPacked(b[3..]);
      var c, rest := PackChunk(b[..3]), Pack(b[3..]);
      SpellConcat(Base64, c, rest);
      assert Group(b[..3]) == Spell(Base64, c);
      assert |b[3..]| % 3 == |b| % 3;
    }
  }

  lemma {:induction false} ReadSpelled(vs: seq<int>, pads: string, bits: int, count: nat)
    requires IsSextets(vs) && AccOk(bits, count) && (pads == "" || pads[0] == '=')
    ensures Read(Spell(Base64, vs) + pads, bits, count) == Some(Unpack(vs, bits, count))
    decreases |vs|
  {
    hide Feed, PlaceOf, CharOf;
    var s := Spell(Base64, vs) + pads;
    if vs == [] {
      assert s == pads;
      EqualsIsNoSpace();
    } else {
      PlaceOfChar(Base64, vs[0]);
      assert s[0] == CharOf(Base64, vs[0]);
      assert s[1..] == Spell(Base64, vs[1..]) + pads;
      var (out, bits', count') := Feed(bits, count, vs[0]);
      ReadSpelled(vs[1..], pads, bits', count');
    }
  }

  lemma EqualsIsNoSpace()
    ensures !IsSpace('=')
  {
  }

  lemma {:induction false} NewlineIsPassed(a: string, b: string, bits: int, count: nat)
    requires AccOk(bits, count)
    ensures Read(a + "\n" + b, bits, count) == Read(a + b, bits, count)
    decreases |a|
  {
    hide Feed, PlaceOf, AccOk;
    if a == "" {
      assert (a + "\n" + b)[1..] == b && a + b == b;
    } else {
      assert (a + "\n" + b)[1..] == a[1..] + "\n" + b && (a + b)[1..] == a[1..] + b;
      var c := a[0];
      if IsSpace(c) {
        NewlineIsPassed(a[1..], b, bits, count);
      } else if c != '=' && PlaceOf(Base64, c).Some? {
        CharOfPlace(Base64, c);
        var (out, bits', count') := Feed(bits, count, PlaceOf(Base64, c).value);
        NewlineIsPassed(a[1..], b, bits', count');
      }
    }
  }

  lemma {:induction false} LinesArePassed(x: string, s: string, bits: int, count: nat)
    requires AccOk(bits, count)
    ensures Read(x + Lines(s), bits, count) == Read(x + s, bits, count)
    decreases |s|
  {
    hide Read;
    if |s| > LINE {
      var front, rest := s[..LINE], s[LINE..];
      assert x + Lines(s) == x + front + "\n" + Lines(rest);
      NewlineIsPassed(x + front, Lines(rest), bits, count);
      LinesArePassed(x + front, rest, bits, count);
      assert x + front + rest == x + s;
    }
  }

  /** Decoding an encoding gives every octet string back. */
  lemma Base64RoundTrip(b: seq<Byte>)
    ensures DecodeText(EncodeText(b)) == Some(b)
  {
    PowersOfTwo();
    hide Read, Lines, Unbroken;
    var s := Unbroken(b);
    LinesArePassed("", s, 0, 0);
    assert "" + Lines(s) == Lines(s) && "" + s == s;
    UnbrokenIsPacked(b);
    ReadSpelled(Pack(b), Pads(if |b| % 3 == 0 then 0 else 3 - |b| % 3), 0, 0);
    UnpackOfPack(b);
  }

  lemma {:induction false} LinesAreFull(s: string)
    requires forall i :: 0 <= i < |s| ==> s[i] != '\n'
    ensures forall i :: 0 <= i < |Lines(s)| ==> (Lines(s)[i] == '\n' <==> i % (LINE + 1) == LINE)
    ensures s != "" ==> Lines(s) != "" && Lines(s)[|Lines(s)| - 1] != '\n'
    decreases |s|
  {
    if |s| > LINE {
      var rest := Lines(s[LINE..]);
      LinesAreFull(s[LINE..]);
      var out := s[..LINE] + "\n" + rest;
      forall i | 0 <= i < |out| ensures out[i] == '\n' <==> i % (LINE + 1) == LINE {
        if i > LINE {
          assert out[i] == rest[i - LINE - 1];
          LineLater(i - LINE - 1);
        } else {
          FirstLine(i);
        }
      }
    } else {
      forall i | 0 <= i < |s| ensures s[i] == '\n' <==> i % (LINE + 1) == LINE { FirstLine(i); }
    }
  }

  lemma LineLater(k: nat)
    ensures (k + LINE + 1) % (LINE + 1) == k % (LINE + 1)
  {
  }

  lemma FirstLine(k: nat)
    requires k <= LINE
    ensures k % (LINE + 1) == k
  {
  }

  lemma NoNewlineBefore(b: seq<Byte>)
    ensures forall i :: 0 <= i < |Unbroken(b)| ==> Unbroken(b)[i] != '\n'
  {
    UnbrokenIsPacked(b);
    hide Unbroken;
    var vs := Pack(b);
    var s := Unbroken(b);
    forall i | 0 <= i < |s| ensures s[i] != '\n' {
      if i < |vs| {
        PlaceOfChar(Base64, vs[i]);
        assert s[i] == CharOf(Base64, vs[i]);
        assert IsSpace('\n');
      }
    }
  }

  /** Lines are exactly 76 characters but for the last, which is never empty:
      newlines stand at every 77th place and nowhere else. */
  lemma EncodedLines(b: seq<Byte>)
    ensures forall i :: 0 <= i < |EncodeText(b)| ==> (EncodeText(b)[i] == '\n' <==> i % (LINE + 1) == LINE)
    ensures b != [] ==> EncodeText(b) != "" && EncodeText(b)[|EncodeText(b)| - 1] != '\n'
  {
    assert b != [] ==> Unbroken(b) != "";
    hide Unbroken, Lines;
    NoNewlineBefore(b);
    LinesAreFull(Unbroken(b));
  }

  // ---------------------------------------------------------------------- hex

  function HexDigit(d: int): char
    requires 0 <= d < 16
  {
    if d < 10 then (d + '0' as int) as char else (d - 10 + 'a' as int) as char
  }

  /** `to_digit(16)`. */
  function HexValue(c: char): Option<int> {
    if '0' <= c <= '9' then Some(c as int - '0' as int)
    else if 'a' <= c <= 'f' then Some(c as int - 'a' as int + 10)
    else if 'A' <= c <= 'F' then Some(c as int - 'A' as int + 10)
    else None
  }

  function HexEncode(b: seq<Byte>): string {
    if b == [] then "" else [HexDigit(b[0] / 16), HexDigit(b[0] % 16)] + HexEncode(b[1..])
  }

  function WithoutSpaces(s: string): string {
    if s == "" then "" else if IsSpace(s[0]) then WithoutSpaces(s[1..]) else [s[0]] + WithoutSpaces(s[1..])
  }

  function ReadPairs(s: string): Option<seq<Byte>>
    decreases |s|
  {
    if s == "" then Some([])
    else if |s| == 1 then None
    else
      var hi, lo, rest := HexValue(s[0]), HexValue(s[1]), ReadPairs(s[2..]);
      if hi.None? || lo.None? || rest.None? then None else Some([hi.value * 16 + lo.value] + rest.value)
  }

  /** `from_hex`. */
  function FromHex(s: string): Option<seq<Byte>> { ReadPairs(WithoutSpaces(s)) }

  lemma HexDigitReads(d: int)
    requires 0 <= d < 16
    ensures HexValue(HexDigit(d)) == Some(d) && !IsSpace(HexDigit(d))
  {
  }

  /** Hex reads back whatever white space is strewn over it. */
  lemma {:induction false} HexRoundTrip(b: seq<Byte>, text: string)
    requires WithoutSpaces(text) == HexEncode(b)
    ensures FromHex(text) == Some(b)
  {
    PairsRead(b);
  }

  lemma {:induction false} PairsRead(b: seq<Byte>)
    ensures ReadPairs(HexEncode(b)) == Some(b) && WithoutSpaces(HexEncode(b)) == HexEncode(b)
  {
    if b != [] {
      PairsRead(b[1..]);
      var s := HexEncode(b);
      HexDigitReads(b[0] / 16);
      HexDigitReads(b[0] % 16);
      assert s[2..] == HexEncode(b[1..]);
      assert s[1..] == [HexDigit(b[0] % 16)] + HexEncode(b[1..]) && s[1..][1..] == s[2..];
      assert b == [b[0]] + b[1..];
    }
  }

  // ------------------------------------------------------ what texts decode

  /** Up to the first padding character. */
  function UpToPad(s: string): (r: string)
    ensures '=' !in r && r <= s && (|r| < |s| ==> s[|r|] == '=')
  {
    if s == "" || s[0] == '=' then "" else [s[0]] + UpToPad(s[1..])
  }

  /** Every text: white space is nothing, the first padding character ends it, and
      what is left is octets if and only if it is all in the alphabet. */
  lemma DecodeIs(text: string)
    ensures var body := UpToPad(WithoutSpaces(text));
            AccOk(0, 0) && DecodeText(text) ==
            if InAlphabet(Base64, body) then Some(Unpack(Places(Base64, body), 0, 0)) else None
  {
    PowersOfTwo();
    ReadIs(text, 0, 0);
  }

  lemma {:induction false} ReadIs(text: string, bits: int, count: nat)
    requires AccOk(bits, count)
    ensures var body := UpToPad(WithoutSpaces(text));
            Read(text, bits, count) ==
            if InAlphabet(Base64, body) then Some(Unpack(Places(Base64, body), bits, count)) else None
    decreases |text|
  {
    hide Feed, PlaceOf, CharOf, Places, IsSpace;
    if text == "" {
    } else if IsSpace(text[0]) {
      ReadIs(text[1..], bits, count);
    } else if text[0] == '=' {
      assert WithoutSpaces(text)[0] == '=';
    } else {
      var c, more := text[0], WithoutSpaces(text[1..]);
      assert WithoutSpaces(text) == [c] + more && ([c] + more)[1..] == more;
      var body := UpToPad(more);
      CharOfPlace(Base64, c);
      BodyGrows(c, body);
      if PlaceOf(Base64, c).Some? {
        var v := PlaceOf(Base64, c).value;
        var (out, bits', count') := Feed(bits, count, v);
        ReadIs(text[1..], bits', count');
        if InAlphabet(Base64, body) {
          var vs := Places(Base64, [c] + body);
          UnpackStep(vs, bits, count, out, bits', count');
        }
      }
    }
  }

  lemma BodyGrows(c: char, body: string)
    ensures InAlphabet(Base64, [c] + body) <==> PlaceOf(Base64, c).Some? && InAlphabet(Base64, body)
    ensures InAlphabet(Base64, [c] + body) ==>
              var vs := Places(Base64, [c] + body);
              vs != [] && vs[0] == PlaceOf(Base64, c).value && vs[1..] == Places(Base64, body)
  {
    hide PlaceOf;
    var s := [c] + body;
    assert s[0] == c && s[1..] == body;
    assert forall i :: 0 <= i < |body| ==> s[i + 1] == body[i];
  }

  const HEX_DIGITS := "0123456789abcdef"

  /** Two lower-case digits an octet, high half first. */
  lemma {:induction false} HexIs(b: seq<Byte>, i: nat)
    requires i < |b|
    ensures |HexEncode(b)| == 2 * |b|
    ensures HexEncode(b)[2 * i] == HEX_DIGITS[b[i] / 16] && HexEncode(b)[2 * i + 1] == HEX_DIGITS[b[i] % 16]
  {
    HexLength(b);
    if i == 0 {
      DigitIsWritten(b[0] / 16);
      DigitIsWritten(b[0] % 16);
    } else {
      HexIs(b[1..], i - 1);
    }
  }

  lemma {:induction false} HexLength(b: seq<Byte>)
    ensures |HexEncode(b)| == 2 * |b|
  {
    if b != [] { HexLength(b[1..]); }
  }

  lemma DigitIsWritten(d: int)
    requires 0 <= d < 16
    ensures HexDigit(d) == HEX_DIGITS[d]
  {
  }

  /** A hex text is octets if and only if, white space aside, it is an even number
      of hex digits of either case; each octet is its two digits. */
  lemma FromHexIff(text: string)
    ensures var s := WithoutSpaces(text);
            FromHex(text).Some? <==> |s| % 2 == 0 && forall i :: 0 <= i < |s| ==> HexValue(s[i]).Some?
    ensures var s := WithoutSpaces(text);
            FromHex(text).Some? ==>
              && 2 * |FromHex(text).value| == |s|
              && forall i :: 0 <= i < |s| / 2 ==>
                   FromHex(text).value[i] as int == 16 * HexValue(s[2 * i]).value + HexValue(s[2 * i + 1]).value
  {
    PairsIff(WithoutSpaces(text));
  }

  lemma {:induction false} PairsIff(s: string)
    ensures ReadPairs(s).Some? <==> |s| % 2 == 0 && forall i :: 0 <= i < |s| ==> HexValue(s[i]).Some?
    ensures ReadPairs(s).Some? ==>
              && 2 * |ReadPairs(s).value| == |s|
              && forall i :: 0 <= i < |s| / 2 ==>
                   ReadPairs(s).value[i] as int == 16 * HexValue(s[2 * i]).value + HexValue(s[2 * i + 1]).value
    decreases |s|
  {
    hide HexValue;
    if |s| >= 2 {
      PairsIff(s[2..]);
      assert s == [s[0], s[1]] + s[2..];
    }
  }

  /** The hex digits and their values: both cases. */
  lemma HexValueIff(c: char, v: int)
    ensures HexValue(c) == Some(v) <==> 0 <= v < 16 && (c == HEX_DIGITS[v] || c == "0123456789ABCDEF"[v])
  {
  }
}
