/** What the tokenizer's answer means for the text, and what it reads back. */
module LexerLaws {
  import opened Text
  import opened Lexer

  // ------------------------------------------------- a text laid out in tokens

  /** White space and closed comments, and nothing else.  Only at the end of the
      text may a line comment lack its newline. */
  predicate IsGap(g: string, final: bool)
    decreases |g|
  {
    if g == "" then true
    else if IsBlank(g[0]) then IsGap(g[1..], final)
    else if StartsLine(g) then
      var n := LineLength(g);
      (final || n < |g|) && IsGap(g[n..], final)
    else if StartsBlock(g) then
      var close := CloseAt(g[2..]);
      close.Some? && IsGap(g[close.value + 4..], final)
    else false
  }

  /** Quotes doubled. */
  function Doubled(v: string, q: char): string {
    if v == "" then "" else (if v[0] == q then [q, q] else [v[0]]) + Doubled(v[1..], q)
  }

  predicate IsWord(w: string) {
    w != "" && StartsWord(w[0]) && forall i :: 0 <= i < |w| ==> InWord(w[i])
  }

  predicate StartsNumber(p: string) {
    p != "" && (IsDigit(p[0]) || (p[0] == '.' && |p| > 1 && IsDigit(p[1])))
  }

  /** A point and the digits after it, if any. */
  predicate IsFraction(f: string) { f == "" || (f[0] == '.' && AllDigits(f[1..])) }

  /** An `e`, a sign if any, and at least one digit. */
  predicate IsExponent(x: string) {
    x == "" || ((x[0] == 'e' || x[0] == 'E') && IsPower(x[1..]))
  }

  predicate IsPower(y: string) {
    var z := if y != "" && (y[0] == '+' || y[0] == '-') then y[1..] else y;
    z != "" && AllDigits(z)
  }

  /** A numeric literal: digits, a fraction and an exponent, each optional. */
  predicate IsNumber(p: string) {
    exists i, j :: 0 <= i <= j <= |p| && NumberParts(p, i, j)
  }

  predicate NumberParts(p: string, i: nat, j: nat)
    requires i <= j <= |p|
  {
    AllDigits(p[..i]) && IsFraction(p[i..j]) && IsExponent(p[j..])
  }

  const I64_LIMIT := 0x7FFF_FFFF_FFFF_FFFF

  /** A number and the exact value it keeps: that of an integer, when it fits. */
  predicate IsNumberToken(p: string, exact: Option<int>) {
    && StartsNumber(p) && IsNumber(p)
    && exact == if AllDigits(p) && Value(p) <= I64_LIMIT then Some(Value(p)) else None
  }

  /** How a token may be spelled in a text. */
  ghost predicate Spells(t: Tok, piece: string) {
    match t
    case Word(w) => piece == w && IsWord(w)
    case Quoted(w) => piece == "\"" + Doubled(w, '"') + "\""
    case Str(w) => piece == "'" + Doubled(w, '\'') + "'"
    case Num(spelling, exact) => piece == spelling && IsNumberToken(spelling, exact)
    case Param(n) => exists d :: piece == "$" + d && d != "" && AllDigits(d) && Value(d) == n && 1 <= n <= MAX_PARAMETER
    case Eof => false
    case _ => piece == Spelling(t) || (t == Ne && piece == "!=")
  }

  /** The text from `i` on is gap, token, gap, token, ..., gap, ending in Eof at
      the text's end. */
  ghost predicate LaidOut(text: string, i: nat, tokens: seq<Token>)
    requires i <= |text|
    decreases |tokens|
  {
    && tokens != [] && i <= tokens[0].at <= |text|
    && IsGap(text[i..tokens[0].at], tokens[0].tok.Eof?)
    && if |tokens| == 1 then tokens[0] == Token(Eof, |text|)
       else exists end ::
         && tokens[0].at < end <= |text|
         && Spells(tokens[0].tok, text[tokens[0].at..end])
         && LaidOut(text, end, tokens[1..])
  }

  lemma {:induction false} LineLengthStops(s: string)
    ensures forall i :: 0 <= i < LineLength(s) ==> s[i] != '\n'
    ensures LineLength(s) < |s| ==> s[LineLength(s)] == '\n'
  {
    if s != "" && s[0] != '\n' {
      LineLengthStops(s[1..]);
      assert s == [s[0]] + s[1..];
    }
  }

  lemma {:induction false} LineLengthOfPrefix(s: string, n: nat)
    requires LineLength(s) <= n <= |s|
    ensures LineLength(s[..n]) == LineLength(s)
  {
    if s != "" && s[0] != '\n' && n > 0 {
      assert s[..n][1..] == s[1..][..n - 1];
      LineLengthOfPrefix(s[1..], n - 1);
    }
  }

  lemma {:induction false} CloseOfPrefix(s: string, n: nat)
    requires CloseAt(s).Some? && CloseAt(s).value + 2 <= n <= |s|
    ensures CloseAt(s[..n]) == CloseAt(s)
  {
    if !(s[0] == '*' && s[1] == '/') {
      assert s[..n][1..] == s[1..][..n - 1];
      CloseOfPrefix(s[1..], n - 1);
    }
  }

  /** What the blank scan passes is a gap. */
  lemma {:induction false} BlankIsGap(s: string)
    requires BlankLength(s).Some?
    ensures IsGap(s[..BlankLength(s).value], BlankLength(s).value == |s|)
    decreases |s|
  {
    hide IsGap, CloseAt, LineLength;
    var n := BlankLength(s).value;
    if s == "" {
      GapOfBlank("", true);
    } else if IsBlank(s[0]) {
      BlankIsGap(s[1..]);
      hide BlankLength;
      assert s[..n][1..] == s[1..][..n - 1];
      GapOfBlank(s[..n], n == |s|);
    } else if StartsLine(s) {
      LineLengthStops(s);
      BlankIsGap(s[LineLength(s)..]);
      LinePasses(s);
      hide BlankLength;
      GapOfLine(s, n);
    } else if StartsBlock(s) {
      BlankIsGap(s[CloseAt(s[2..]).value + 4..]);
      hide BlankLength;
      GapOfBlock(s, n);
    } else {
      assert s[..0] == "";
      GapOfBlank("", false);
    }
  }

  lemma GapOfBlank(g: string, final: bool)
    requires g != "" ==> IsBlank(g[0]) && IsGap(g[1..], final)
    ensures IsGap(g, final)
  {
  }

  lemma GapOfLine(s: string, n: nat)
    requires s != "" && !IsBlank(s[0]) && StartsLine(s)
    requires LineLength(s) <= n <= |s| && IsGap(s[LineLength(s)..][..n - LineLength(s)], n == |s|)
    requires LineLength(s) < |s| ==> LineLength(s) < n
    ensures IsGap(s[..n], n == |s|)
  {
    var line := LineLength(s);
    assert s[..n][line..] == s[line..][..n - line];
    LineLengthOfPrefix(s, n);
  }

  /** The newline after a line comment is passed too. */
  lemma LinePasses(s: string)
    requires s != "" && !IsBlank(s[0]) && StartsLine(s) && BlankLength(s).Some?
    ensures LineLength(s) < |s| ==> LineLength(s) < BlankLength(s).value
  {
    LineLengthStops(s);
    var rest := s[LineLength(s)..];
    if rest != "" { assert rest[0] == '\n'; }
  }

  lemma GapOfBlock(s: string, n: nat)
    requires s != "" && !IsBlank(s[0]) && !StartsLine(s) && StartsBlock(s) && CloseAt(s[2..]).Some?
    requires CloseAt(s[2..]).value + 4 <= n <= |s|
    requires IsGap(s[CloseAt(s[2..]).value + 4..][..n - CloseAt(s[2..]).value - 4], n == |s|)
    ensures IsGap(s[..n], n == |s|)
  {
    var close := CloseAt(s[2..]).value;
    var g := s[..n];
    assert g[close + 4..] == s[close + 4..][..n - close - 4];
    CloseOfPrefix(s[2..], n - 2);
    assert g[2..] == s[2..][..n - 2] && g[0] == s[0] && g[1] == s[1];
    hide CloseAt;
    assert CloseAt(g[2..]) == CloseAt(s[2..]);
  }

  lemma {:induction false} QuotedSpells(s: string, q: char)
    requires ReadQuoted(s, q).Some?
    ensures var (v, n) := ReadQuoted(s, q).value; s[..n] == Doubled(v, q) + [q]
    ensures var (v, n) := ReadQuoted(s, q).value; n < |s| ==> s[n] != q
    decreases |s|
  {
    var (v, n) := ReadQuoted(s, q).value;
    if s[0] != q {
      QuotedSpells(s[1..], q);
      var (w, m) := ReadQuoted(s[1..], q).value;
      assert v == [s[0]] + w && n == m + 1;
      hide ReadQuoted;
      DoubledFirst(s[0], w, q);
      assert s[..n] == [s[0]] + s[1..][..m];
    } else if |s| >= 2 && s[1] == q {
      QuotedSpells(s[2..], q);
      var (w, m) := ReadQuoted(s[2..], q).value;
      assert v == [q] + w && n == m + 2;
      hide ReadQuoted;
      DoubledFirst(q, w, q);
      assert s[..n] == [q, q] + s[2..][..m];
    }
  }

  lemma DoubledFirst(c: char, w: string, q: char)
    ensures Doubled([c] + w, q) == (if c == q then [q, q] else [c]) + Doubled(w, q)
  {
    assert ([c] + w)[1..] == w;
  }

  lemma {:induction false} WordRunIsWord(s: string)
    ensures forall i :: 0 <= i < WordRun(s) ==> InWord(s[i])
    ensures WordRun(s) < |s| ==> !InWord(s[WordRun(s)])
  {
    if s != "" && InWord(s[0]) {
      WordRunIsWord(s[1..]);
      assert s == [s[0]] + s[1..];
    }
  }

  lemma TripleSpells(a: char, b: char, c: char)
    requires ReadTriple(a, b, c).Some?
    ensures IsOperator(ReadTriple(a, b, c).value) && Spelling(ReadTriple(a, b, c).value) == [a, b, c]
  {
  }

  lemma PairSpells(a: char, b: char)
    requires ReadPair(a, b).Some?
    ensures var t := ReadPair(a, b).value;
            IsOperator(t) && (Spelling(t) == [a, b] || (t == Ne && [a, b] == "!="))
  {
  }

  lemma SingleSpells(a: char)
    requires ReadSingle(a).Some?
    ensures IsOperator(ReadSingle(a).value) && Spelling(ReadSingle(a).value) == [a]
  {
  }

  lemma OperatorSpells(s: string)
    requires s != "" && ReadOperator(s).Some?
    ensures var (t, n) := ReadOperator(s).value;
            IsOperator(t) && n <= |s| && (s[..n] == Spelling(t) || (t == Ne && s[..n] == "!="))
  {
    hide ReadTriple, ReadPair, ReadSingle, Spelling;
    var (t, n) := ReadOperator(s).value;
    if n == 3 {
      TripleSpells(s[0], s[1], s[2]);
      assert s[..3] == [s[0], s[1], s[2]];
    } else if n == 2 {
      PairSpells(s[0], s[1]);
      assert s[..2] == [s[0], s[1]];
    } else {
      SingleSpells(s[0]);
      assert s[..1] == [s[0]];
    }
  }

  lemma ParamSpells(s: string)
    requires s != "" && s[0] == '$' && ReadParam(s).Some?
    ensures var (t, n) := ReadParam(s).value; n <= |s| && t.Param? && Spells(t, s[..n])
  {
    var (t, n) := ReadParam(s).value;
    var d := s[1..n];
    assert d == s[1..][..DigitRun(s[1..])];
    assert s[..n] == "$" + d;
  }

  /** Every token the scan reads is spelled by the octets it took. */
  lemma TokenSpells(s: string)
    requires s != "" && ReadToken(s).Some?
    ensures var (t, n) := ReadToken(s).value; Spells(t, s[..n]) && !t.Eof?
  {
    hide ReadQuoted, ReadOperator, ReadNumber, ReadParam, Spelling, WordRun;
    var (t, n) := ReadToken(s).value;
    var c := s[0];
    if c == '\'' || c == '"' {
      hide Doubled;
      QuotedSpells(s[1..], c);
      assert s[..n] == [c] + s[1..][..n - 1];
    } else if c == '$' {
      ParamSpells(s);
    } else if IsDigit(c) || (c == '.' && |s| > 1 && IsDigit(s[1])) {
      NumberSpells(s);
    } else if StartsWord(c) {
      WordRunIsWord(s);
    } else {
      OperatorSpells(s);
    }
  }

  lemma NumberSpells(s: string)
    requires StartsNumber(s)
    ensures var (t, n) := ReadNumber(s); 0 < n <= |s| && t.Num? && Spells(t, s[..n])
  {
    hide Value;
    var (t, n) := ReadNumber(s);
    NumberWidth(s);
    var piece := s[..n];
    var digits := DigitRun(s);
    assert StartsNumber(piece);
    if n == digits {
      assert AllDigits(piece) && NumberParts(piece, n, n);
      UnsignedDigits(piece);
    } else {
      assert piece[digits] == s[digits] && !IsDigit(piece[digits]);
      NumberSplits(s);
    }
  }

  lemma UnsignedDigits(d: string)
    requires d != "" && AllDigits(d)
    ensures ParseInt(d) == if Value(d) <= I64_LIMIT then Some(Value(d)) else None
  {
    ValueBound(d);
  }

  lemma NumberWidth(s: string)
    requires StartsNumber(s)
    ensures 0 < ReadNumber(s).1 <= |s| && DigitRun(s) <= ReadNumber(s).1
  {
  }

  lemma NumberSplits(s: string)
    requires StartsNumber(s)
    ensures IsNumber(s[..ReadNumber(s).1])
  {
    var i := DigitRun(s);
    var j := FractionEnd(s, i);
    var n := ExponentEnd(s, j);
    var p := s[..n];
    PrefixSlice(s, n, 0, i);
    PrefixSlice(s, n, i, j);
    PrefixSlice(s, n, j, n);
    FractionSpells(s, i);
    ExponentSpells(s, j);
    hide IsFraction, IsExponent, FractionEnd, ExponentEnd;
    assert p[..i] == s[..i] && p[i..j] == s[i..j] && p[j..] == s[j..n];
    assert NumberParts(p, i, j);
  }

  lemma PrefixSlice(s: string, m: nat, a: nat, b: nat)
    requires a <= b <= m <= |s|
    ensures s[..m][a..b] == s[a..b]
  {
  }

  /** The first character of a slice, and the others. */
  lemma SliceTail(s: string, a: nat, b: nat)
    requires a < b <= |s|
    ensures s[a..b][0] == s[a] && s[a..b][1..] == s[a + 1..b] == s[a + 1..][..b - a - 1]
  {
  }

  lemma FractionSpells(s: string, i: nat)
    requires i <= |s|
    ensures IsFraction(s[i..FractionEnd(s, i)])
  {
    var j := FractionEnd(s, i);
    if i < j { SliceTail(s, i, j); }
  }

  lemma ExponentSpells(s: string, j: nat)
    requires j <= |s|
    ensures IsExponent(s[j..ExponentEnd(s, j)])
  {
    var n := ExponentEnd(s, j);
    if j < n {
      var k := if j + 1 < |s| && (s[j + 1] == '+' || s[j + 1] == '-') then j + 2 else j + 1;
      SliceTail(s, j, n);
      SliceTail(s, j + 1, n);
      assert s[k..n] == s[k..][..n - k];
    }
  }

  /** One token of the scan. */
  lemma LexUnfolds(s: string, at: nat)
    requires Lex(s, at).Some?
    ensures BlankLength(s).Some?
    ensures var start := at + BlankLength(s).value;
            var here := s[BlankLength(s).value..];
            if here == "" then Lex(s, at).value == [Token(Eof, start)]
            else
              && ReadToken(here).Some?
              && var (t, n) := ReadToken(here).value;
                 var rest := Lex(here[n..], start + n);
                 rest.Some? && Lex(s, at).value == [Token(t, start)] + rest.value
  {
    hide BlankLength, ReadToken;
  }

  /** A text that lexes is laid out in its tokens: offsets rise strictly, only
      white space and comments lie between tokens, every token is spelled by the
      octets at its offset, and the last is Eof at the text's end. */
  lemma {:induction false} LexLaysOut(text: string, i: nat)
    requires i <= |text| && Lex(text[i..], i).Some?
    ensures LaidOut(text, i, Lex(text[i..], i).value)
    decreases |text| - i
  {
    hide IsGap, Spells, ReadToken, BlankLength, LaidOut, Lex;
    var s := text[i..];
    LexUnfolds(s, i);
    var blank := BlankLength(s).value;
    BlankIsGap(s);
    var here := s[blank..];
    var at := i + blank;
    assert s[..blank] == text[i..at];
    if here == "" {
      LaidOutEnd(text, i);
    } else {
      assert here == text[at..];
      TokenSpells(here);
      var (t, n) := ReadToken(here).value;
      var end := at + n;
      assert here[n..] == text[end..] && here[..n] == text[at..end];
      LexLaysOut(text, end);
      LaidOutStep(text, i, at, end, t, Lex(text[end..], end).value);
    }
  }

  lemma LaidOutEnd(text: string, i: nat)
    requires i <= |text| && IsGap(text[i..|text|], true)
    ensures LaidOut(text, i, [Token(Eof, |text|)])
  {
  }

  lemma LaidOutStep(text: string, i: nat, at: nat, end: nat, t: Tok, rest: seq<Token>)
    requires i <= at < end <= |text| && IsGap(text[i..at], false) && !t.Eof? && Spells(t, text[at..end])
    requires LaidOut(text, end, rest)
    ensures LaidOut(text, i, [Token(t, at)] + rest)
  {
    var tokens := [Token(t, at)] + rest;
    assert tokens[1..] == rest;
  }

  lemma {:induction false} OffsetsRise(text: string, i: nat, tokens: seq<Token>)
    requires i <= |text| && LaidOut(text, i, tokens)
    ensures tokens[|tokens| - 1] == Token(Eof, |text|)
    ensures forall j, k :: 0 <= j < k < |tokens| ==> i <= tokens[j].at < tokens[k].at <= |text|
    ensures forall j :: 0 <= j < |tokens| ==> i <= tokens[j].at
    decreases |tokens|
  {
    hide IsGap, Spells;
    if |tokens| > 1 {
      var end :| tokens[0].at < end <= |text| && LaidOut(text, end, tokens[1..]);
      OffsetsRise(text, end, tokens[1..]);
      assert tokens == [tokens[0]] + tokens[1..];
    }
  }

  // --------------------------------------------------------- maximal munch

  /** Which stage of the operator scan a spelling answers to. */
  lemma SpellingReads(t: Tok)
    requires IsOperator(t)
    ensures var p := Spelling(t);
            && 1 <= |p| <= 3
            && (|p| == 3 ==> ReadTriple(p[0], p[1], p[2]) == Some(t))
            && (|p| == 2 ==> ReadPair(p[0], p[1]) == Some(t))
            && (|p| == 1 ==> ReadSingle(p[0]) == Some(t))
  {
    TripleReads(t);
    PairReads(t);
    SingleReads(t);
    SpellingWidth(t);
    hide Spelling, ReadTriple, ReadPair, ReadSingle;
  }

  lemma SpellingWidth(t: Tok)
    requires IsOperator(t)
    ensures 1 <= |Spelling(t)| <= 3
  {
  }

  lemma TripleReads(t: Tok)
    requires IsOperator(t)
    ensures var p := Spelling(t); |p| == 3 ==> ReadTriple(p[0], p[1], p[2]) == Some(t)
  {
  }

  lemma PairReads(t: Tok)
    requires IsOperator(t)
    ensures var p := Spelling(t); |p| == 2 ==> ReadPair(p[0], p[1]) == Some(t)
  {
  }

  lemma SingleReads(t: Tok)
    requires IsOperator(t)
    ensures var p := Spelling(t); |p| == 1 ==> ReadSingle(p[0]) == Some(t)
  {
  }

  /** What an operator may begin with. */
  predicate BeginsOperator(c: char) {
    c != '\'' && c != '"' && c != '$' && !IsDigit(c) && !StartsWord(c) && !IsBlank(c)
  }

  lemma TripleFirst(a: char, b: char, c: char)
    requires ReadTriple(a, b, c).Some?
    ensures BeginsOperator(a) && a != '.' && a != '/' && !(a == '-' && b == '-')
  {
  }

  lemma PairFirst(a: char, b: char)
    requires ReadPair(a, b).Some?
    ensures BeginsOperator(a) && a != '.' && a != '/' && !(a == '-' && b == '-')
  {
  }

  lemma SingleFirst(a: char)
    requires ReadSingle(a).Some?
    ensures BeginsOperator(a)
  {
  }

  /** The operator read is the longest one the text starts with. */
  lemma OperatorIsLongest(s: string, t: Tok)
    requires s != "" && IsOperator(t) && Spelling(t) <= s
    ensures ReadOperator(s).Some? && |Spelling(t)| <= ReadOperator(s).value.1
  {
    hide ReadTriple, ReadPair, ReadSingle, Spelling;
    SpellingReads(t);
    var p := Spelling(t);
    assert p[0] == s[0];
    assert |p| >= 2 ==> p[1] == s[1];
    assert |p| >= 3 ==> p[2] == s[2];
  }

  lemma {:induction false} WordIsLongest(s: string, m: nat)
    requires m <= |s| && forall i :: 0 <= i < m ==> InWord(s[i])
    ensures m <= WordRun(s)
  {
    if m > 0 {
      assert forall i :: 0 <= i < m - 1 ==> s[1..][i] == s[i + 1];
      WordIsLongest(s[1..], m - 1);
    }
  }

  lemma {:induction false} DigitsAreLongest(s: string, m: nat)
    requires m <= |s| && AllDigits(s[..m])
    ensures m <= DigitRun(s)
  {
    if m > 0 {
      assert s[..m][0] == s[0] && s[1..][..m - 1] == s[..m][1..];
      DigitsAreLongest(s[1..], m - 1);
    }
  }

  lemma RunDigit(s: string, k: nat)
    requires k < |s|
    ensures k < DigitRun(s) ==> IsDigit(s[k])
  {
    if k < DigitRun(s) { assert s[..DigitRun(s)][k] == s[k]; }
  }

  lemma NumberIsLongest(s: string, m: nat)
    requires StartsNumber(s) && m <= |s| && IsNumber(s[..m])
    ensures m <= ReadNumber(s).1
  {
    var p := s[..m];
    var i, j :| 0 <= i <= j <= m && NumberParts(p, i, j);
    FractionIsLongest(s, m, i, j);
    var d := DigitRun(s);
    if j < m && j == FractionEnd(s, d) { ExponentIsLongest(s, m, j); }
  }

  lemma FractionIsLongest(s: string, m: nat, i: nat, j: nat)
    requires i <= j <= m <= |s| && NumberParts(s[..m], i, j)
    ensures j <= FractionEnd(s, DigitRun(s)) && (j < m ==> j == FractionEnd(s, DigitRun(s)))
  {
    hide FractionEnd, DigitRun, IsFraction;
    PrefixSlice(s, m, 0, i);
    PrefixSlice(s, m, i, j);
    PrefixSlice(s, m, j, m);
    assert s[..m][..i] == s[..i] && s[..m][j..] == s[j..m];
    FractionReaches(s, i, j);
    if j < m {
      SliceTail(s, j, m);
      ExponentFollows(s, j);
    }
  }

  lemma FractionReaches(s: string, i: nat, j: nat)
    requires i <= j <= |s| && AllDigits(s[..i]) && IsFraction(s[i..j])
    ensures j <= FractionEnd(s, DigitRun(s))
  {
    hide DigitRun, AllDigits;
    DigitsAreLongest(s, i);
    if i < j {
      RunDigit(s, i);
      SliceTail(s, i, j);
      DigitsAreLongest(s[i + 1..], j - i - 1);
      assert DigitRun(s) == i;
    }
  }

  lemma ExponentFollows(s: string, j: nat)
    requires j < |s| && (s[j] == 'e' || s[j] == 'E') && j <= FractionEnd(s, DigitRun(s))
    ensures j == FractionEnd(s, DigitRun(s))
  {
    hide DigitRun;
    var d := DigitRun(s);
    RunDigit(s, j);
    if d < j { RunDigit(s[d + 1..], j - d - 1); }
  }

  lemma ExponentIsLongest(s: string, m: nat, j: nat)
    requires j < m <= |s| && IsExponent(s[..m][j..])
    ensures m <= ExponentEnd(s, j)
  {
    hide DigitRun, AllDigits;
    PrefixSlice(s, m, j, m);
    assert s[..m][j..] == s[j..m];
    SliceTail(s, j, m);
    var y := s[j + 1..m];
    assert IsPower(y);
    if y != "" { SliceTail(s, j + 1, m); }
    var k := if y != "" && (y[0] == '+' || y[0] == '-') then j + 2 else j + 1;
    assert s[k..m] == s[k..][..m - k];
    PowerIsLongest(s[k..], m - k);
  }

  lemma PowerIsLongest(s: string, m: nat)
    requires 0 < m <= |s| && AllDigits(s[..m])
    ensures IsDigit(s[0]) && m <= DigitRun(s)
  {
    assert s[..m][0] == s[0];
    DigitsAreLongest(s, m);
  }

  lemma {:induction false} QuotedIsLongest(v: string, q: char, rest: string)
    ensures var r := ReadQuoted(Doubled(v, q) + [q] + rest, q); r.Some? ==> |Doubled(v, q)| + 1 <= r.value.1
  {
    var s := Doubled(v, q) + [q] + rest;
    if v != "" {
      QuotedIsLongest(v[1..], q, rest);
      var skip := if v[0] == q then 2 else 1;
      assert s[skip..] == Doubled(v[1..], q) + [q] + rest;
    }
  }

  lemma OperatorFirst(t: Tok)
    requires IsOperator(t)
    ensures var p := Spelling(t);
            && p != "" && p[0] != '\'' && p[0] != '"' && p[0] != '$' && !IsDigit(p[0]) && !StartsWord(p[0])
            && (p[0] == '.' ==> |p| == 1) && !IsBlank(p[0])
            && (|p| >= 2 ==> !(p[0] == '-' && p[1] == '-') && !(p[0] == '/' && p[1] == '*'))
  {
    hide Spelling, ReadTriple, ReadPair, ReadSingle;
    SpellingReads(t);
    var p := Spelling(t);
    if |p| == 3 {
      TripleFirst(p[0], p[1], p[2]);
    } else if |p| == 2 {
      PairFirst(p[0], p[1]);
    } else {
      SingleFirst(p[0]);
    }
  }

  /** Maximal munch: of all tokens a text's beginning spells, the one read is the
      longest. */
  lemma TokenIsLongest(s: string, t: Tok, m: nat)
    requires s != "" && ReadToken(s).Some? && m <= |s| && Spells(t, s[..m])
    ensures m <= ReadToken(s).value.1
  {
    hide ReadQuoted, ReadOperator, ReadNumber, ReadParam, Spelling, WordRun, IsNumber, Doubled, Value;
    var p := s[..m];
    assert m > 0 ==> p[0] == s[0];
    if t.Word? {
      assert forall i :: 0 <= i < m ==> InWord(p[i]);
      WordIsLongest(s, m);
    } else if t.Num? {
      assert m > 1 ==> p[1] == s[1];
      NumberIsLongest(s, m);
    } else if t.Param? {
      ParamIsLongest(s, m);
    } else if t.Str? || t.Quoted? {
      var q := if t.Str? then '\'' else '"';
      AfterQuote(s, m, Doubled(t.w, q), q);
      QuotedIsLongest(t.w, q, s[m..]);
    } else {
      OperatorTokenIsLongest(s, t, m);
    }
  }

  /** What follows an opening quote. */
  lemma AfterQuote(s: string, m: nat, d: string, q: char)
    requires m <= |s| && s[..m] == [q] + d + [q]
    ensures s[1..] == d + [q] + s[m..]
  {
    assert s == s[..m] + s[m..];
    assert s == [q] + (d + [q] + s[m..]);
  }

  lemma ParamIsLongest(s: string, m: nat)
    requires s != "" && m <= |s| && exists n :: Spells(Param(n), s[..m])
    ensures s[0] == '$' && (ReadParam(s).Some? ==> m <= ReadParam(s).value.1)
  {
    var n :| Spells(Param(n), s[..m]);
    var d :| s[..m] == "$" + d && d != "" && AllDigits(d);
    assert s[0] == s[..m][0] && s[1..][..m - 1] == s[..m][1..] == d;
    DigitsAreLongest(s[1..], m - 1);
  }

  lemma OperatorTokenIsLongest(s: string, t: Tok, m: nat)
    requires s != "" && ReadToken(s).Some? && m <= |s| && IsOperator(t)
    requires s[..m] == Spelling(t) || (t == Ne && s[..m] == "!=")
    ensures m <= ReadToken(s).value.1
  {
    hide ReadQuoted, ReadNumber, ReadParam, Spelling, WordRun, ReadOperator;
    OperatorFirst(t);
    assert s[0] == s[..m][0];
    if s[..m] == Spelling(t) {
      OperatorIsLongest(s, t);
    } else {
      assert s[..m][1] == s[1];
      BangIsLongest(s);
    }
  }

  lemma BangIsLongest(s: string)
    requires |s| >= 2 && s[0] == '!' && s[1] == '='
    ensures ReadOperator(s).Some? && 2 <= ReadOperator(s).value.1
  {
  }

  // ------------------------------------------------------ printed and re-read

  /** Tokens `written` prints as they are spelled. */
  predicate Printable(t: Tok) {
    match t
    case Word(w) => IsWord(w)
    case Quoted(w) => '"' !in w
    case Str(w) => '\'' !in w
    case Num(spelling, exact) => IsNumberToken(spelling, exact)
    case Param(n) => 1 <= n <= MAX_PARAMETER
    case Eof => false
    case _ => true
  }

  /** Tokens with a space after each. */
  function Print(ts: seq<Tok>): string {
    if ts == [] then "" else Written(ts[0]) + " " + Print(ts[1..])
  }

  function Toks(tokens: seq<Token>): (ts: seq<Tok>)
    ensures |ts| == |tokens| && forall i :: 0 <= i < |ts| ==> ts[i] == tokens[i].tok
  {
    seq(|tokens|, i requires 0 <= i < |tokens| => tokens[i].tok)
  }

  lemma {:induction false} WordRunOf(w: string, rest: string)
    requires (forall i :: 0 <= i < |w| ==> InWord(w[i])) && (rest == "" || !InWord(rest[0]))
    ensures WordRun(w + rest) == |w|
  {
    if w == "" {
      assert w + rest == rest;
    } else {
      assert (w + rest)[1..] == w[1..] + rest;
      WordRunOf(w[1..], rest);
    }
  }

  /** Doubling the quotes and closing reads back as the value, whatever follows
      that is not another quote. */
  lemma {:induction false} QuotedReads(v: string, q: char, rest: string)
    requires rest == "" || rest[0] != q
    ensures ReadQuoted(Doubled(v, q) + [q] + rest, q) == Some((v, |Doubled(v, q)| + 1))
  {
    hide ReadQuoted;
    var s := Doubled(v, q) + [q] + rest;
    if v == "" {
      assert s == [q] + rest;
      QuotedCloses(q, rest);
    } else {
      QuotedReads(v[1..], q, rest);
      assert v == [v[0]] + v[1..];
      DoubledFirst(v[0], v[1..], q);
      hide Doubled;
      var d := Doubled(v[1..], q);
      var more := d + [q] + rest;
      if v[0] == q {
        assert s == [q, q] + more;
        QuotedDouble(q, more);
      } else {
        assert s == [v[0]] + more;
        QuotedPlain(v[0], q, more);
      }
    }
  }

  lemma QuotedCloses(q: char, rest: string)
    requires rest == "" || rest[0] != q
    ensures ReadQuoted([q] + rest, q) == Some(("", 1))
  {
  }

  lemma QuotedDouble(q: char, more: string)
    requires ReadQuoted(more, q).Some?
    ensures ReadQuoted([q, q] + more, q) == Some(([q] + ReadQuoted(more, q).value.0, 2 + ReadQuoted(more, q).value.1))
  {
    assert ([q, q] + more)[2..] == more;
  }

  lemma QuotedPlain(c: char, q: char, more: string)
    requires c != q && ReadQuoted(more, q).Some?
    ensures ReadQuoted([c] + more, q) == Some(([c] + ReadQuoted(more, q).value.0, 1 + ReadQuoted(more, q).value.1))
  {
    assert ([c] + more)[1..] == more;
  }

  lemma {:induction false} DoubledPlain(v: string, q: char)
    ensures |Doubled(v, q)| >= |v|
    ensures |Doubled(v, q)| == |v| <==> q !in v
    ensures q !in v ==> Doubled(v, q) == v
  {
    if v != "" {
      DoubledPlain(v[1..], q);
      assert v == [v[0]] + v[1..];
    }
  }

  /** No longer operator ends in a space. */
  lemma SpaceEndsOperator(a: char, b: char)
    ensures ReadTriple(a, b, ' ') == None && ReadTriple(a, ' ', b) == None && ReadPair(a, ' ') == None
  {
  }

  lemma OperatorReads(t: Tok, rest: string)
    requires IsOperator(t)
    ensures ReadOperator(Spelling(t) + " " + rest) == Some((t, |Spelling(t)|))
  {
    hide ReadTriple, ReadPair, ReadSingle, Spelling;
    SpellingReads(t);
    var p := Spelling(t);
    var s := p + " " + rest;
    assert s[|p|] == ' ' && s[0] == p[0];
    assert |p| >= 2 ==> s[1] == p[1];
    assert |p| >= 3 ==> s[2] == p[2];
    SpaceEndsOperator(s[0], s[1]);
    if |s| >= 3 { SpaceEndsOperator(s[0], s[2]); }
  }

  lemma OperatorStarts(t: Tok, rest: string)
    requires IsOperator(t)
    ensures var s := Spelling(t) + " " + rest;
            && !IsBlank(s[0]) && !StartsLine(s) && !StartsBlock(s)
            && s[0] != '\'' && s[0] != '"' && s[0] != '$' && !IsDigit(s[0]) && !StartsWord(s[0])
            && (s[0] == '.' ==> s[1] == ' ')
  {
    hide Spelling;
    OperatorFirst(t);
    var s := Spelling(t) + " " + rest;
    var n := |Spelling(t)|;
    assert s[n] == ' ' && s[0] == Spelling(t)[0];
    assert n >= 2 ==> s[1] == Spelling(t)[1];
  }

  lemma WordReads(w: string, rest: string)
    requires IsWord(w)
    ensures BlankLength(w + " " + rest) == Some(0)
    ensures ReadToken(w + " " + rest) == Some((Word(w), |w|))
  {
    hide ReadOperator, ReadQuoted, ReadNumber, ReadParam;
    var s := w + " " + rest;
    assert s == w + (" " + rest);
    WordRunOf(w, " " + rest);
    assert s[..|w|] == w && s[0] == w[0];
  }

  lemma LiteralReads(w: string, q: char, rest: string)
    requires (q == '"' || q == '\'') && q !in w
    ensures var s := [q] + w + [q] + " " + rest;
            && BlankLength(s) == Some(0)
            && ReadToken(s) == Some((if q == '"' then Quoted(w) else Str(w), |w| + 2))
  {
    hide ReadOperator, ReadQuoted, Doubled;
    var s := [q] + w + [q] + " " + rest;
    DoubledPlain(w, q);
    QuotedReads(w, q, " " + rest);
    assert s[1..] == w + [q] + (" " + rest);
  }

  lemma NumberHasNoSpace(p: string, k: nat)
    requires IsNumber(p) && k < |p|
    ensures p[k] != ' '
  {
    var i, j :| 0 <= i <= j <= |p| && NumberParts(p, i, j);
    if k < i {
      assert p[..i][k] == p[k];
    } else if k < j {
      var f := p[i..j];
      assert f[k - i] == p[k];
      if k > i { assert f[1..][k - i - 1] == p[k]; }
    } else {
      ExponentHasNoSpace(p[j..], k - j);
    }
  }

  lemma ExponentHasNoSpace(x: string, k: nat)
    requires IsExponent(x) && k < |x|
    ensures x[k] != ' '
  {
    if k > 0 {
      var y := x[1..];
      assert y[k - 1] == x[k];
      if y[0] == '+' || y[0] == '-' {
        if k > 1 { assert y[1..][k - 2] == x[k]; }
      }
    }
  }

  lemma NumberReads(p: string, exact: Option<int>, rest: string)
    requires IsNumberToken(p, exact)
    ensures var s := p + " " + rest; BlankLength(s) == Some(0) && ReadToken(s) == Some((Num(p, exact), |p|))
  {
    hide ReadOperator, ReadQuoted, ReadNumber, ReadParam, IsNumber, Value;
    var s := p + " " + rest;
    assert s[..|p|] == p && s[0] == p[0] && (|p| > 1 ==> s[1] == p[1]);
    NumberIsLongest(s, |p|);
    NumberSpells(s);
    var n := ReadNumber(s).1;
    if |p| < n {
      assert s[..n][|p|] == ' ';
      NumberHasNoSpace(s[..n], |p|);
    }
  }

  lemma ParamReads(n: nat, rest: string)
    requires 1 <= n <= MAX_PARAMETER
    ensures var s := "$" + Decimal(n) + " " + rest;
            BlankLength(s) == Some(0) && ReadToken(s) == Some((Param(n), 1 + |Decimal(n)|))
  {
    hide ReadOperator, ReadQuoted, Decimal, Value, DigitRun;
    var s := "$" + Decimal(n) + " " + rest;
    assert s[1..] == Decimal(n) + (" " + rest);
    DigitRunOf(Decimal(n), " " + rest);
    assert s[1..1 + |Decimal(n)|] == Decimal(n);
    ValueOfDecimal(n);
  }

  /** A printed token is read back, from its own place and no other. */
  lemma TokenReads(t: Tok, rest: string)
    requires Printable(t)
    ensures var s := Written(t) + " " + rest;
            BlankLength(s) == Some(0) && ReadToken(s) == Some((t, |Written(t)|)) && |Written(t)| > 0
  {
    hide ReadToken, BlankLength, Spelling;
    var s := Written(t) + " " + rest;
    if t.Word? {
      WordReads(t.w, rest);
    } else if t.Quoted? {
      LiteralReads(t.w, '"', rest);
      assert s == ['"'] + t.w + ['"'] + " " + rest;
    } else if t.Str? {
      LiteralReads(t.w, '\'', rest);
      assert s == ['\''] + t.w + ['\''] + " " + rest;
    } else if t.Param? {
      ParamReads(t.n, rest);
    } else if t.Num? {
      NumberReads(t.spelling, t.exact, rest);
    } else {
      WrittenOperator(t);
      hide Written, Printable;
      OperatorTokenReads(t, rest);
    }
  }

  lemma WrittenOperator(t: Tok)
    requires IsOperator(t)
    ensures Written(t) == Spelling(t)
  {
  }

  lemma OperatorTokenReads(t: Tok, rest: string)
    requires IsOperator(t)
    ensures var s := Spelling(t) + " " + rest;
            BlankLength(s) == Some(0) && ReadToken(s) == Some((t, |Spelling(t)|)) && |Spelling(t)| > 0
  {
    hide ReadOperator, Spelling, ReadQuoted, ReadNumber, ReadParam;
    OperatorStarts(t, rest);
    OperatorReads(t, rest);
    OperatorFirst(t);
  }

  /** Lexing depends only on what the blanks leave, and where. */
  lemma LexPastBlanks(s: string, at: nat, x: string, from: nat)
    requires BlankLength(s).Some? <==> BlankLength(x).Some?
    requires BlankLength(s).Some? ==>
               at + BlankLength(s).value == from + BlankLength(x).value
               && s[BlankLength(s).value..] == x[BlankLength(x).value..]
    ensures Lex(s, at) == Lex(x, from)
  {
    hide BlankLength, ReadToken;
  }

  lemma LexAfterSpace(x: string, at: nat)
    ensures Lex(" " + x, at) == Lex(x, at + 1)
  {
    var s := " " + x;
    assert s[1..] == x;
    var blank := BlankLength(x);
    assert BlankLength(s) == Past(1, blank);
    if blank.Some? { assert s[1 + blank.value..] == x[blank.value..]; }
    LexPastBlanks(s, at, x, at + 1);
  }

  lemma LexStep(s: string, at: nat, t: Tok, n: nat)
    requires s != "" && BlankLength(s) == Some(0) && ReadToken(s) == Some((t, n)) && n <= |s|
    ensures Lex(s, at) ==
            match Lex(s[n..], at + n) case None => None case Some(rest) => Some([Token(t, at)] + rest)
  {
    hide BlankLength, ReadToken;
    assert s[0..] == s;
  }

  /** Printing any run of operators, words, parameters and quote-free literals
      and lexing it gives the same tokens back. */
  lemma {:induction false} PrintedTokensReadBack(ts: seq<Tok>, at: nat)
    requires forall i :: 0 <= i < |ts| ==> Printable(ts[i])
    ensures Lex(Print(ts), at).Some?
    ensures Toks(Lex(Print(ts), at).value) == ts + [Eof]
    decreases |ts|
  {
    hide ReadToken, BlankLength, Written, Printable, Lex;
    if ts == [] {
      EmptyText(at);
    } else {
      var rest := Print(ts[1..]);
      var s := Print(ts);
      TokenReads(ts[0], rest);
      var n := |Written(ts[0])|;
      assert s[n..] == " " + rest;
      LexStep(s, at, ts[0], n);
      LexAfterSpace(rest, at + n);
      PrintedTokensReadBack(ts[1..], at + n + 1);
      assert ts == [ts[0]] + ts[1..];
    }
  }

  lemma EmptyText(at: nat)
    ensures Lex("", at) == Some([Token(Eof, at)])
  {
  }

  // ------------------------------------------------------------ SQL literals

  /** `quoted`: a SQL string literal with its single quotes doubled. */
  function SqlLiteral(s: string): string { "'" + Doubled(s, '\'') + "'" }

  /** A quoted value is one string token holding exactly the value, inside any
      statement, if and only if no quote is written straight after it. */
  lemma SqlLiteralReads(s: string, rest: string)
    ensures ReadToken(SqlLiteral(s) + rest) == Some((Str(s), |SqlLiteral(s)|)) <==> rest == "" || rest[0] != '\''
  {
    hide Doubled;
    var text := SqlLiteral(s) + rest;
    assert text[1..] == Doubled(s, '\'') + ['\''] + rest;
    if rest == "" || rest[0] != '\'' {
      QuotedReads(s, '\'', rest);
    } else if ReadToken(text).Some? {
      QuotedSpells(text[1..], '\'');
      assert text[|SqlLiteral(s)|] == '\'';
    }
  }

  /** Lexing a quoted value alone gives that value and nothing else. */
  lemma SqlLiteralAlone(s: string)
    ensures Lex(SqlLiteral(s), 0) == Some([Token(Str(s), 0), Token(Eof, |SqlLiteral(s)|)])
  {
    hide Doubled, ReadToken;
    var text := SqlLiteral(s);
    SqlLiteralReads(s, "");
    assert text + "" == text && text[|text|..] == "";
    assert BlankLength(text) == Some(0);
    LexStep(text, 0, Str(s), |text|);
    EmptyText(|text|);
    hide Lex;
    assert [Token(Str(s), 0)] + [Token(Eof, |text|)] == [Token(Str(s), 0), Token(Eof, |text|)];
  }

  /** `written` does not double quotes, so a string or quoted-identifier token it
      prints reads back as itself exactly when the text holds none. */
  lemma WrittenLiteralReadsBackIff(w: string, q: char)
    requires q == '\'' || q == '"'
    ensures var t := if q == '\'' then Str(w) else Quoted(w);
            ReadToken(Written(t)) == Some((t, |w| + 2)) <==> q !in w
  {
    hide Doubled, ReadQuoted;
    var t := if q == '\'' then Str(w) else Quoted(w);
    var s := Written(t);
    DoubledPlain(w, q);
    assert s[1..] == w + [q];
    if q !in w {
      QuotedReads(w, q, "");
      assert Doubled(w, q) + [q] + "" == s[1..];
    } else if ReadToken(s) == Some((t, |w| + 2)) {
      QuotedSpells(s[1..], q);
    }
  }
}
