/** `tokenize` as written: one index walks the text and tokens are pushed. */
module Tokenizer {
  import opened Text
  import opened Lexer
  import opened LexerLaws

  // ------------------------------------------------------------ inner loops

  method SkipLine(text: string, i: nat) returns (j: nat)
    requires i <= |text|
    ensures j == i + LineLength(text[i..])
  {
    j := i;
    while j < |text| && text[j] != '\n'
      invariant i <= j <= |text|
      invariant LineLength(text[i..]) == j - i + LineLength(text[j..])
    {
      assert text[j..][1..] == text[j + 1..];
      j := j + 1;
    }
  }

  /** One step of the search for a star-slash. */
  lemma CloseCases(s: string)
    ensures |s| < 2 ==> CloseAt(s) == None
    ensures |s| >= 2 && s[0] == '*' && s[1] == '/' ==> CloseAt(s) == Some(0)
    ensures |s| >= 2 && !(s[0] == '*' && s[1] == '/') ==> CloseAt(s) == Past(1, CloseAt(s[1..]))
  {
  }

  /** The star of the star-slash closing a block comment that opens at `i`. */
  method FindClose(text: string, i: nat) returns (r: Option<nat>)
    requires i + 2 <= |text|
    ensures r == match CloseAt(text[i + 2..]) case None => None case Some(k) => Some(i + 2 + k)
  {
    hide CloseAt;
    var j := i + 2;
    while true
      invariant i + 2 <= j <= |text|
      invariant CloseAt(text[i + 2..]) == Past(j - i - 2, CloseAt(text[j..]))
      decreases |text| - j
    {
      CloseCases(text[j..]);
      if j + 1 >= |text| { return None; }
      if text[j] == '*' && text[j + 1] == '/' { return Some(j); }
      assert text[j..][1..] == text[j + 1..];
      j := j + 1;
    }
  }

  /** A continuation octet of UTF-8. */
  predicate IsContinuation(c: char) { 0x80 <= c as int < 0xC0 }

  function Joined(v: string, n: nat, r: Option<(string, nat)>): Option<(string, nat)> {
    if r.None? then None else Some((v + r.value.0, n + r.value.1))
  }

  lemma JoinedTwice(v: string, n: nat, w: string, m: nat, r: Option<(string, nat)>)
    ensures Joined(v, n, Joined(w, m, r)) == Joined(v + w, n + m, r)
  {
    if r.Some? { assert v + (w + r.value.0) == v + w + r.value.0; }
  }

  lemma JoinedNothing(r: Option<(string, nat)>)
    ensures Joined("", 0, r) == r
  {
    if r.Some? { assert "" + r.value.0 == r.value.0; }
  }

  /** How the rest of a quoted text begins. */
  lemma QuotedCases(s: string, q: char)
    ensures s == "" ==> ReadQuoted(s, q) == None
    ensures s != "" && s[0] != q ==> ReadQuoted(s, q) == Joined([s[0]], 1, ReadQuoted(s[1..], q))
    ensures |s| >= 2 && s[0] == q && s[1] == q ==> ReadQuoted(s, q) == Joined([q], 2, ReadQuoted(s[2..], q))
    ensures s != "" && s[0] == q && !(|s| >= 2 && s[1] == q) ==> ReadQuoted(s, q) == Some(("", 1))
  {
  }

  lemma {:induction false} PlainChunk(s: string, n: nat, q: char)
    requires n <= |s| && forall i :: 0 <= i < n ==> s[i] != q
    ensures ReadQuoted(s, q) == Joined(s[..n], n, ReadQuoted(s[n..], q))
  {
    hide ReadQuoted, Joined;
    if n > 0 {
      PlainChunk(s[1..], n - 1, q);
      QuotedCases(s, q);
      assert s[1..][n - 1..] == s[n..];
      assert s[..n] == [s[0]] + s[1..][..n - 1];
      JoinedTwice([s[0]], 1, s[1..][..n - 1], n - 1, ReadQuoted(s[n..], q));
    } else {
      assert s[0..] == s && s[..0] == "";
      JoinedNothing(ReadQuoted(s, q));
    }
  }

  /** One character of a quoted text: its first octet and its continuations. */
  method CopyChar(text: string, j: nat, q: char) returns (end: nat)
    requires j < |text| && text[j] != q && !IsContinuation(q)
    ensures j < end <= |text| && forall k :: j <= k < end ==> text[k] != q
  {
    end := j + 1;
    while end < |text| && IsContinuation(text[end])
      invariant j < end <= |text|
      invariant forall k :: j <= k < end ==> text[k] != q
    {
      end := end + 1;
    }
  }

  /** The quoted-text loop: whole characters are copied, doubled quotes collapse. */
  method ReadLiteral(text: string, i: nat, q: char) returns (r: Option<(string, nat)>)
    requires i < |text| && (q == '\'' || q == '"')
    ensures r == ReadQuoted(text[i + 1..], q)
  {
    hide ReadQuoted, Joined;
    var value, j := "", i + 1;
    ghost var whole := ReadQuoted(text[i + 1..], q);
    JoinedNothing(whole);
    while true
      invariant i + 1 <= j <= |text|
      invariant whole == Joined(value, j - i - 1, ReadQuoted(text[j..], q))
      decreases |text| - j
    {
      QuotedCases(text[j..], q);
      if j >= |text| {
        JoinedEnds(value, j - i - 1);
        return None;
      }
      if text[j] == q {
        if j + 1 < |text| && text[j + 1] == q {
          assert text[j..][2..] == text[j + 2..];
          JoinedTwice(value, j - i - 1, [q], 2, ReadQuoted(text[j + 2..], q));
          value, j := value + [q], j + 2;
          continue;
        }
        JoinedEnds(value, j - i - 1);
        j := j + 1;
        break;
      }
      var start := j;
      var end := CopyChar(text, j, q);
      PlainChunk(text[start..], end - start, q);
      assert text[start..][..end - start] == text[start..end] && text[start..][end - start..] == text[end..];
      JoinedTwice(value, j - i - 1, text[start..end], end - start, ReadQuoted(text[end..], q));
      value, j := value + text[start..end], end;
    }
    r := Some((value, j - i - 1));
  }

  lemma JoinedEnds(v: string, n: nat)
    ensures Joined(v, n, None) == None && Joined(v, n, Some(("", 1))) == Some((v, n + 1))
  {
    assert v + "" == v;
  }

  method ScanDigits(text: string, i: nat) returns (j: nat)
    requires i <= |text|
    ensures j == i + DigitRun(text[i..])
  {
    j := i;
    while j < |text| && IsDigit(text[j])
      invariant i <= j <= |text|
      invariant DigitRun(text[i..]) == j - i + DigitRun(text[j..])
    {
      assert text[j..][1..] == text[j + 1..];
      j := j + 1;
    }
  }

  method ScanWord(text: string, i: nat) returns (j: nat)
    requires i <= |text|
    ensures j == i + WordRun(text[i..])
  {
    j := i;
    while j < |text| && InWord(text[j])
      invariant i <= j <= |text|
      invariant WordRun(text[i..]) == j - i + WordRun(text[j..])
    {
      assert text[j..][1..] == text[j + 1..];
      j := j + 1;
    }
  }

  method ScanFraction(text: string, i: nat, j: nat) returns (end: nat)
    requires i <= j <= |text|
    ensures j <= end && end - i == FractionEnd(text[i..], j - i)
  {
    end := j;
    if j < |text| && text[j] == '.' {
      assert text[i..][j + 1 - i..] == text[j + 1..];
      end := ScanDigits(text, j + 1);
    }
  }

  method ScanExponent(text: string, i: nat, j: nat) returns (end: nat)
    requires i <= j <= |text|
    ensures j <= end && end - i == ExponentEnd(text[i..], j - i)
  {
    hide DigitRun;
    end := j;
    ghost var s := text[i..];
    assert forall k :: j <= k < |text| ==> s[k - i] == text[k];
    if j < |text| && (text[j] == 'e' || text[j] == 'E') {
      var k := j + 1;
      if k < |text| && (text[k] == '+' || text[k] == '-') { k := k + 1; }
      if k < |text| && IsDigit(text[k]) {
        assert text[i..][k - i..] == text[k..];
        end := ScanDigits(text, k);
      }
    }
  }

  /** `number`. */
  method ScanNumber(text: string, i: nat) returns (tok: Tok, end: nat)
    requires i < |text|
    ensures (tok, end - i) == ReadNumber(text[i..]) && i <= end
  {
    hide FractionEnd, ExponentEnd, DigitRun, ParseInt;
    var digits := ScanDigits(text, i);
    var fraction := ScanFraction(text, i, digits);
    end := ScanExponent(text, i, fraction);
    var exact := end == digits;
    assert text[i..end] == text[i..][..end - i];
    tok := Num(text[i..end], if exact then ParseInt(text[i..end]) else None);
  }

  /** The token at `i`, by the source's own dispatch. */
  method ScanToken(text: string, i: nat) returns (r: Option<(Tok, nat)>)
    requires i < |text|
    ensures r == ReadToken(text[i..])
  {
    hide ReadOperator, ReadNumber, ReadQuoted;
    ghost var s := text[i..];
    var c := text[i];
    if c == '\'' {
      var v := ReadLiteral(text, i, '\'');
      assert s[1..] == text[i + 1..];
      r := if v.None? then None else Some((Str(v.value.0), 1 + v.value.1));
    } else if c == '"' {
      var v := ReadLiteral(text, i, '"');
      assert s[1..] == text[i + 1..];
      r := if v.None? then None else Some((Quoted(v.value.0), 1 + v.value.1));
    } else if c == '$' {
      var j := ScanDigits(text, i + 1);
      assert s[1..] == text[i + 1..] && s[1..j - i] == text[i + 1..j];
      if j == i + 1 { return None; }
      var n := Value(text[i + 1..j]);
      r := if n > MAX_PARAMETER || n <= 0 then None else Some((Param(n), j - i));
    } else if IsDigit(c) || (c == '.' && i + 1 < |text| && IsDigit(text[i + 1])) {
      var tok, end := ScanNumber(text, i);
      r := Some((tok, end - i));
    } else if StartsWord(c) {
      var j := ScanWord(text, i);
      assert text[i..j] == s[..j - i];
      r := Some((Word(text[i..j]), j - i));
    } else {
      r := ReadOperator(text[i..]);
    }
  }

  // --------------------------------------------------------------- the walk

  function Pushed(out: seq<Token>, rest: Option<seq<Token>>): Option<seq<Token>> {
    if rest.None? then None else Some(out + rest.value)
  }

  /** Passing `n` blank octets changes nothing but the offset. */
  lemma PassBlank(text: string, i: nat, n: nat)
    requires i + n <= |text|
    requires BlankLength(text[i..]) == Past(n, BlankLength(text[i + n..]))
    ensures Lex(text[i..], i) == Lex(text[i + n..], i + n)
  {
    hide BlankLength, Lex;
    var k := BlankLength(text[i + n..]);
    if k.Some? { assert text[i..][n + k.value..] == text[i + n..][k.value..]; }
    LexPastBlanks(text[i..], i, text[i + n..], i + n);
  }

  lemma PushOne(out: seq<Token>, t: Token, rest: Option<seq<Token>>)
    ensures Pushed(out, Pushed([t], rest)) == Pushed(out + [t], rest)
  {
    if rest.Some? { assert out + ([t] + rest.value) == out + [t] + rest.value; }
  }

  /** One step of the blank scan. */
  lemma BlankCases(s: string)
    requires s != ""
    ensures IsBlank(s[0]) ==> BlankLength(s) == Past(1, BlankLength(s[1..]))
    ensures !IsBlank(s[0]) && StartsLine(s) ==>
              BlankLength(s) == Past(LineLength(s), BlankLength(s[LineLength(s)..]))
    ensures !IsBlank(s[0]) && !StartsLine(s) && StartsBlock(s) ==>
              BlankLength(s) == match CloseAt(s[2..])
                                case None => None
                                case Some(k) => Past(k + 4, BlankLength(s[k + 4..]))
    ensures !IsBlank(s[0]) && !StartsLine(s) && !StartsBlock(s) ==> BlankLength(s) == Some(0)
  {
  }

  lemma ErrorStops(s: string, at: nat)
    requires s != "" && (BlankLength(s).None? || (BlankLength(s) == Some(0) && ReadToken(s).None?))
    ensures Lex(s, at).None?
  {
    hide ReadToken, BlankLength;
    assert s[0..] == s;
  }

  lemma PassSpace(text: string, i: nat)
    requires i < |text| && IsBlank(text[i])
    ensures Lex(text[i..], i) == Lex(text[i + 1..], i + 1)
  {
    hide Lex, BlankLength;
    BlankCases(text[i..]);
    assert text[i..][1..] == text[i + 1..];
    PassBlank(text, i, 1);
  }

  lemma PassLine(text: string, i: nat)
    requires i < |text| && StartsLine(text[i..])
    ensures var j := i + LineLength(text[i..]); i < j <= |text| && Lex(text[i..], i) == Lex(text[j..], j)
  {
    hide Lex, BlankLength, LineLength;
    var s := text[i..];
    BlankCases(s);
    LineMoves(s);
    assert s[LineLength(s)..] == text[i + LineLength(s)..];
    PassBlank(text, i, LineLength(s));
  }

  lemma PassBlock(text: string, i: nat)
    requires i < |text| && StartsBlock(text[i..])
    ensures CloseAt(text[i + 2..]).None? ==> BlankLength(text[i..]) == None
    ensures CloseAt(text[i + 2..]).Some? ==>
              var next := i + CloseAt(text[i + 2..]).value + 4;
              next <= |text| && Lex(text[i..], i) == Lex(text[next..], next)
  {
    hide Lex, BlankLength, CloseAt;
    var s := text[i..];
    BlankCases(s);
    assert s[2..] == text[i + 2..];
    var close := CloseAt(text[i + 2..]);
    if close.Some? {
      assert s[close.value + 4..] == text[i + close.value + 4..];
      PassBlank(text, i, close.value + 4);
    }
  }

  /** One piece of white space or comment, if the text at `i` starts with one. */
  method PassOne(text: string, i: nat) returns (r: Option<nat>)
    requires i < |text|
    ensures r.Some? ==> i <= r.value <= |text| && Lex(text[i..], i) == Lex(text[r.value..], r.value)
    ensures r == Some(i) ==> BlankLength(text[i..]) == Some(0)
    ensures r.None? ==> BlankLength(text[i..]) == None
  {
    hide Lex, LineLength, CloseAt, BlankLength;
    var c := text[i];
    if IsBlank(c) {
      PassSpace(text, i);
      return Some(i + 1);
    }
    if c == '-' && i + 1 < |text| && text[i + 1] == '-' {
      var j := SkipLine(text, i);
      PassLine(text, i);
      return Some(j);
    }
    if c == '/' && i + 1 < |text| && text[i + 1] == '*' {
      var close := FindClose(text, i);
      PassBlock(text, i);
      if close.None? { return None; }
      return Some(close.value + 2);
    }
    BlankCases(text[i..]);
    r := Some(i);
  }

  /** `tokenize`. */
  method Tokenize(text: string) returns (r: Option<seq<Token>>)
    ensures r == Lex(text, 0)
  {
    hide Lex, ReadToken, BlankLength, Pushed;
    var out: seq<Token> := [];
    var i := 0;
    assert text[0..] == text;
    PushNothing(Lex(text, 0));
    while i < |text|
      invariant i <= |text| && Lex(text, 0) == Pushed(out, Lex(text[i..], i))
      decreases |text| - i
    {
      var next := PassOne(text, i);
      ghost var s := text[i..];
      if next.None? {
        ErrorStops(s, i);
        PushError(out);
        return None;
      }
      if next.value > i {
        i := next.value;
        continue;
      }
      var tok := ScanToken(text, i);
      if tok.None? {
        ErrorStops(s, i);
        PushError(out);
        return None;
      }
      var (t, n) := tok.value;
      TokenWidth(s);
      assert s[n..] == text[i + n..];
      LexStep(s, i, t, n);
      PushOne(out, Token(t, i), Lex(text[i + n..], i + n));
      PushedStep(Token(t, i), Lex(text[i + n..], i + n));
      out := out + [Token(t, i)];
      i := i + n;
    }
    assert text[i..] == "";
    EmptyText(i);
    PushEof(out, Token(Eof, |text|));
    r := Some(out + [Token(Eof, |text|)]);
  }

  lemma TokenWidth(s: string)
    requires s != "" && ReadToken(s).Some?
    ensures 0 < ReadToken(s).value.1 <= |s|
  {
    hide ReadToken;
  }

  lemma PushNothing(r: Option<seq<Token>>)
    ensures Pushed([], r) == r
  {
    if r.Some? { assert [] + r.value == r.value; }
  }

  lemma PushError(out: seq<Token>)
    ensures Pushed(out, None) == None
  {
  }

  lemma PushEof(out: seq<Token>, t: Token)
    ensures Pushed(out, Some([t])) == Some(out + [t])
  {
  }

  lemma PushedStep(t: Token, rest: Option<seq<Token>>)
    ensures Pushed([t], rest) == match rest case None => None case Some(r) => Some([t] + r)
  {
  }

  lemma LineMoves(s: string)
    requires StartsLine(s)
    ensures 2 <= LineLength(s)
  {
    assert s[1..][0] == '-';
    assert LineLength(s) == 1 + LineLength(s[1..]);
  }

  /** `highest_parameter`: the largest `$n` the tokenizer reads, 0 when there is
      none or the text does not lex. */
  method HighestParameter(sql: string) returns (n: nat)
    ensures n <= MAX_PARAMETER
    ensures Lex(sql, 0).None? ==> n == 0
    ensures Lex(sql, 0).Some? ==>
              var ts := Lex(sql, 0).value;
              && (forall i :: 0 <= i < |ts| && ts[i].tok.Param? ==> ts[i].tok.n <= n)
              && (n > 0 ==> exists i :: 0 <= i < |ts| && ts[i].tok == Param(n))
  {
    hide Lex;
    var tokens := Tokenize(sql);
    n := 0;
    if tokens.Some? {
      ParamsInRange(sql, 0);
      for i := 0 to |tokens.value|
        invariant n <= MAX_PARAMETER
        invariant forall j :: 0 <= j < i && tokens.value[j].tok.Param? ==> tokens.value[j].tok.n <= n
        invariant n > 0 ==> exists j :: 0 <= j < i && tokens.value[j].tok == Param(n)
      {
        var t := tokens.value[i].tok;
        if t.Param? && t.n > n { n := t.n; }
      }
    }
  }

  lemma {:induction false} ParamsInRange(s: string, at: nat)
    requires Lex(s, at).Some?
    ensures forall i :: 0 <= i < |Lex(s, at).value| && Lex(s, at).value[i].tok.Param? ==>
              1 <= Lex(s, at).value[i].tok.n <= MAX_PARAMETER
    decreases |s|
  {
    hide BlankLength, ReadToken;
    var here := s[BlankLength(s).value..];
    if here != "" {
      var (t, n) := ReadToken(here).value;
      ParamInRange(here);
      ParamsInRange(here[n..], at + BlankLength(s).value + n);
    }
  }

  lemma ParamInRange(s: string)
    requires s != "" && ReadToken(s).Some?
    ensures ReadToken(s).value.0.Param? ==> 1 <= ReadToken(s).value.0.n <= MAX_PARAMETER
  {
    TokenSpells(s);
  }
}
