/** When the tokenizer answers: which token a text begins with, and the only four
    things that stop the scan. */
module LexerOutcome {
  import opened Text
  import opened Lexer
  import opened LexerLaws
  import opened Tokenizer

  // ------------------------------------------------------------- one token

  /** The token does not end at `n`: a parameter runs on into a digit, a quoted
      text into a second quote. */
  predicate GoesOn(t: Tok, s: string, n: nat)
    requires n <= |s|
  {
    n < |s| && match t
      case Param(_) => IsDigit(s[n])
      case Str(_) => s[n] == '\''
      case Quoted(_) => s[n] == '"'
      case _ => false
  }

  /** The first `n` octets spell the token, end there, and nothing longer spells
      any token. */
  ghost predicate TokenAt(s: string, t: Tok, n: nat) {
    && 0 < n <= |s| && Spells(t, s[..n]) && !GoesOn(t, s, n)
    && forall t', m :: 0 < m <= |s| && Spells(t', s[..m]) ==> m <= n
  }

  /** Whatever spells a token reads as that token. */
  lemma SpellingIsRead(t: Tok, p: string)
    requires p != "" && Spells(t, p)
    ensures ReadToken(p) == Some((t, |p|))
  {
    hide ReadQuoted, ReadOperator, ReadNumber, ReadParam, Spelling, WordRun, IsNumber, Doubled, Value;
    assert p[..|p|] == p;
    if t.Word? {
      WordIsLongest(p, |p|);
    } else if t.Num? {
      NumberIsLongest(p, |p|);
      NumberSpells(p);
    } else if t.Param? {
      ParameterIsRead(t.n, p);
    } else if t.Str? || t.Quoted? {
      var q := if t.Str? then '\'' else '"';
      QuotedReads(t.w, q, "");
      assert p[1..] == Doubled(t.w, q) + [q] + "";
    } else {
      OperatorIsRead(t, p);
    }
  }

  lemma ParameterIsRead(n: nat, p: string)
    requires p != "" && Spells(Param(n), p)
    ensures p[0] == '$' && ReadParam(p) == Some((Param(n), |p|))
  {
    hide Value;
    var d :| p == "$" + d && d != "" && AllDigits(d) && Value(d) == n;
    assert p[1..] == d && d + "" == d;
    DigitRunOf(d, "");
    assert p[1..1 + |d|] == d;
  }

  lemma OperatorIsRead(t: Tok, p: string)
    requires IsOperator(t) && p != "" && (p == Spelling(t) || (t == Ne && p == "!="))
    ensures ReadToken(p) == Some((t, |p|))
  {
    hide ReadQuoted, ReadNumber, ReadParam, Spelling, WordRun, ReadTriple, ReadPair, ReadSingle;
    if p == Spelling(t) {
      OperatorFirst(t);
      SpellingReads(t);
    } else {
      BangReads();
    }
  }

  lemma BangReads()
    ensures ReadToken("!=") == Some((Ne, 2))
  {
    hide ReadQuoted, ReadNumber, ReadParam, WordRun;
    assert ReadPair('!', '=') == Some(Ne);
  }

  /** A text that begins with a spelled token that ends there reads as some token. */
  lemma SpelledIsRead(s: string, t: Tok, m: nat)
    requires 0 < m <= |s| && Spells(t, s[..m]) && !GoesOn(t, s, m)
    ensures ReadToken(s).Some?
  {
    hide ReadQuoted, ReadOperator, ReadNumber, ReadParam, Spelling, WordRun, IsNumber, Doubled, Value;
    var p := s[..m];
    assert p[0] == s[0] && (m > 1 ==> p[1] == s[1]);
    if t.Word? || t.Num? {
    } else if t.Param? {
      ParameterRuns(s, t.n, m);
    } else if t.Str? || t.Quoted? {
      QuotedIsRead(s, t.w, if t.Str? then '\'' else '"', m);
    } else {
      OperatorIsFound(s, t, m);
    }
  }

  lemma QuotedIsRead(s: string, w: string, q: char, m: nat)
    requires 0 < m <= |s| && s[..m] == [q] + Doubled(w, q) + [q] && (m < |s| ==> s[m] != q)
    ensures s[0] == q && ReadQuoted(s[1..], q).Some?
  {
    hide ReadQuoted, Doubled;
    assert s[0] == s[..m][0];
    AfterQuote(s, m, Doubled(w, q), q);
    QuotedReads(w, q, s[m..]);
  }

  lemma OperatorIsFound(s: string, t: Tok, m: nat)
    requires 0 < m <= |s| && IsOperator(t) && (s[..m] == Spelling(t) || (t == Ne && s[..m] == "!="))
    ensures ReadOperator(s).Some? && s[0] != '\'' && s[0] != '"' && s[0] != '$'
  {
    hide ReadOperator, Spelling;
    var p := s[..m];
    assert p[0] == s[0] && (m > 1 ==> p[1] == s[1]);
    OperatorFirst(t);
    if p == Spelling(t) { OperatorIsLongest(s, t); } else { BangIsLongest(s); }
  }

  lemma ParameterRuns(s: string, n: nat, m: nat)
    requires 0 < m <= |s| && Spells(Param(n), s[..m]) && !GoesOn(Param(n), s, m)
    ensures s[0] == '$' && ReadParam(s).Some?
  {
    hide Value;
    var d :| s[..m] == "$" + d && d != "" && AllDigits(d) && Value(d) == n;
    assert s == s[..m] + s[m..] && s[1..] == d + s[m..];
    assert s[0] == s[..m][0];
    DigitRunOf(d, s[m..]);
    assert s[1..1 + |d|] == d;
  }

  /** A token read does not go on. */
  lemma ReadEnds(s: string)
    requires s != "" && ReadToken(s).Some?
    ensures var (t, n) := ReadToken(s).value; !GoesOn(t, s, n)
  {
    hide ReadOperator, ReadNumber, Spelling, WordRun, Value, ReadQuoted;
    var (t, n) := ReadToken(s).value;
    if s[0] == '\'' || s[0] == '"' {
      QuotedSpells(s[1..], s[0]);
    } else if s[0] == '$' {
      assert n < |s| ==> s[n] == s[1..][n - 1];
    } else if IsDigit(s[0]) || (s[0] == '.' && |s| > 1 && IsDigit(s[1])) {
      NumberSpells(s);
    } else if !StartsWord(s[0]) {
      OperatorSpells(s);
    }
  }

  /** The token read is exactly the longest a beginning of the text spells,
      provided it ends there. */
  lemma ReadTokenIff(s: string, t: Tok, n: nat)
    requires s != ""
    ensures ReadToken(s) == Some((t, n)) <==> TokenAt(s, t, n)
  {
    hide ReadToken, Spells, GoesOn;
    if ReadToken(s).Some? { ReadIsTokenAt(s); }
    if TokenAt(s, t, n) {
      SpelledIsRead(s, t, n);
      ReadIsTokenAt(s);
      var (t', n') := ReadToken(s).value;
      assert n == n';
      SpellingIsRead(t, s[..n]);
      SpellingIsRead(t', s[..n]);
    }
  }

  lemma ReadIsTokenAt(s: string)
    requires s != "" && ReadToken(s).Some?
    ensures var (t, n) := ReadToken(s).value; TokenAt(s, t, n)
  {
    TokenWidth(s);
    TokenSpells(s);
    ReadEnds(s);
    hide ReadToken, Spells, GoesOn;
    var (t, n) := ReadToken(s).value;
    forall t', m | 0 < m <= |s| && Spells(t', s[..m]) ensures m <= n { TokenIsLongest(s, t', m); }
  }

  /** The classes the dispatch goes by, as octet ranges. */
  lemma OctetClasses(c: char)
    ensures var x := c as int;
            && (IsDigit(c) <==> 48 <= x <= 57)
            && (StartsWord(c) <==> x == 95 || 65 <= x <= 90 || 97 <= x <= 122 || 128 <= x)
            && (InWord(c) <==> x == 95 || 48 <= x <= 57 || 65 <= x <= 90 || 97 <= x <= 122 || 128 <= x)
            && (IsBlank(c) <==> x == 32 || x == 9 || x == 10 || x == 12 || x == 13)
  {
  }

  /** How a comment begins. */
  lemma CommentStarts(s: string)
    ensures StartsLine(s) <==> "--" <= s
    ensures StartsBlock(s) <==> "/*" <= s
  {
  }

  // --------------------------------------------------- when there is no token

  /** A quote opens and no quote closes it. */
  ghost predicate UnclosedQuote(s: string)
    requires s != ""
  {
    (s[0] == '\'' || s[0] == '"') && forall w :: !Closes(s, w, s[0])
  }

  /** The text begins with `w` quoted, its quotes doubled, and the closing quote is
      not itself doubled. */
  predicate Closes(s: string, w: string, q: char) {
    var p := [q] + Doubled(w, q) + [q];
    p <= s && (|p| == |s| || s[|p|] != q)
  }

  /** A dollar whose digits are none, or worth 0 or more than 65535. */
  predicate BadParameter(s: string)
    requires s != ""
  {
    s[0] == '$' && var d := s[1..1 + DigitRun(s[1..])]; d == "" || Value(d) < 1 || Value(d) > MAX_PARAMETER
  }

  /** An octet that begins no word, number, parameter or quoted text, in a text
      that begins with no operator. */
  ghost predicate Foreign(s: string)
    requires s != ""
  {
    && s[0] != '\'' && s[0] != '"' && s[0] != '$' && !StartsNumber(s) && !StartsWord(s[0])
    && forall t :: IsOperator(t) ==> !(Spelling(t) <= s)
  }

  lemma NoTokenIff(s: string)
    requires s != ""
    ensures ReadToken(s).None? <==> UnclosedQuote(s) || BadParameter(s) || Foreign(s)
  {
    hide ReadQuoted, ReadOperator, ReadNumber, Spelling, WordRun, Doubled, Value;
    if s[0] == '\'' || s[0] == '"' {
      QuoteClosesIff(s);
    } else if s[0] == '$' {
    } else if !StartsNumber(s) && !StartsWord(s[0]) {
      OperatorIff(s);
    }
  }

  lemma QuoteClosesIff(s: string)
    requires s != "" && (s[0] == '\'' || s[0] == '"')
    ensures ReadQuoted(s[1..], s[0]).Some? <==> exists w :: Closes(s, w, s[0])
  {
    hide ReadQuoted, Doubled;
    var q := s[0];
    if ReadQuoted(s[1..], q).Some? {
      var (w, n) := ReadQuoted(s[1..], q).value;
      QuotedSpells(s[1..], q);
      var p := [q] + Doubled(w, q) + [q];
      assert p == s[..n + 1] by { assert s == [q] + s[1..]; }
      assert Closes(s, w, q);
    }
    if w :| Closes(s, w, q) {
      var p := [q] + Doubled(w, q) + [q];
      assert s[..|p|] == p;
      AfterQuote(s, |p|, Doubled(w, q), q);
      QuotedReads(w, q, s[|p|..]);
    }
  }

  lemma OperatorIff(s: string)
    requires s != ""
    ensures ReadOperator(s).Some? <==> exists t :: IsOperator(t) && Spelling(t) <= s
  {
    hide ReadOperator, Spelling;
    if ReadOperator(s).Some? {
      OperatorSpells(s);
      var (t, n) := ReadOperator(s).value;
      if s[..n] != Spelling(t) {
        BangSpells();
        assert s[..n][0] == s[0];
        assert Spelling(Bang) <= s;
      } else {
        assert Spelling(t) <= s;
      }
    }
    if t :| IsOperator(t) && Spelling(t) <= s { OperatorIsLongest(s, t); }
  }

  lemma BangSpells()
    ensures Spelling(Bang) == "!"
  {
  }

  // -------------------------------------------------------------- whole texts

  /** One step of the scan: a blank, a comment or a token. */
  ghost predicate Step(text: string, i: nat, j: nat)
    requires i < j <= |text|
  {
    var s := text[i..];
    if IsBlank(s[0]) then j == i + 1
    else if StartsLine(s) then j == i + LineLength(s)
    else if StartsBlock(s) then CloseAt(s[2..]) == Some(j - i - 4)
    else SomeToken(s, j - i)
  }

  ghost predicate SomeToken(s: string, n: nat) { exists t :: TokenAt(s, t, n) }

  /** The scan comes by `i`. */
  ghost predicate Reached(text: string, i: nat)
    requires i <= |text|
    decreases i
  {
    i == 0 || exists j: nat :: j < i && Reached(text, j) && Step(text, j, i)
  }

  /** The scan stops with an error at `i`: a block comment is not closed, or no
      token begins there. */
  ghost predicate ErrorAt(text: string, i: nat)
    requires i < |text|
  {
    var s := text[i..];
    !IsBlank(s[0]) && !StartsLine(s)
    && if StartsBlock(s) then CloseAt(s[2..]).None? else UnclosedQuote(s) || BadParameter(s) || Foreign(s)
  }

  /** A text does not lex if and only if the scan comes by an error. */
  lemma LexFailsIff(text: string)
    ensures Lex(text, 0).None? <==> exists i: nat :: i < |text| && Reached(text, i) && ErrorAt(text, i)
  {
    hide Lex, Reached, ErrorAt;
    assert text[0..] == text;
    if Lex(text, 0).None? {
      StartIsReached(text);
      var i := FindError(text, 0);
      assert Reached(text, i) && ErrorAt(text, i);
    }
    if i: nat :| i < |text| && Reached(text, i) && ErrorAt(text, i) {
      ErrorFails(text, i);
      ReachedLexes(text, i);
    }
  }

  lemma StartIsReached(text: string)
    ensures Reached(text, 0)
  {
  }

  lemma OneStep(text: string, i: nat, j: nat)
    requires i < j <= |text| && Reached(text, i) && Step(text, i, j)
    ensures Reached(text, j)
  {
    hide Step;
  }

  /** Where the scan is, and where it goes next. */
  lemma {:induction false} FindError(text: string, i: nat) returns (e: nat)
    requires i <= |text| && Reached(text, i) && Lex(text[i..], i).None?
    ensures e < |text| && Reached(text, e) && ErrorAt(text, e)
    decreases |text| - i
  {
    hide Lex, Reached, ErrorAt, Step, LineLength, CloseAt;
    if i == |text| {
      assert text[i..] == "";
      EmptyText(i);
    } else {
      var j := NextPlace(text, i);
      if j.None? {
        e := i;
      } else {
        OneStep(text, i, j.value);
        e := FindError(text, j.value);
      }
    }
  }

  /** A scan that fails from `i` on stops there or takes a step. */
  lemma NextPlace(text: string, i: nat) returns (j: Option<nat>)
    requires i < |text| && Lex(text[i..], i).None?
    ensures j.None? ==> ErrorAt(text, i)
    ensures j.Some? ==> i < j.value <= |text| && Step(text, i, j.value) && Lex(text[j.value..], j.value).None?
  {
    hide Lex, LineLength, CloseAt, UnclosedQuote, BadParameter, Foreign, ReadToken, TokenAt, BlankLength;
    var s := text[i..];
    if IsBlank(s[0]) {
      PassSpace(text, i);
      j := Some(i + 1);
    } else if StartsLine(s) {
      PassLine(text, i);
      j := Some(i + LineLength(s));
    } else if StartsBlock(s) {
      PassBlock(text, i);
      assert s[2..] == text[i + 2..];
      j := if CloseAt(s[2..]).None? then None else Some(i + CloseAt(s[2..]).value + 4);
    } else {
      NoTokenIff(s);
      if ReadToken(s).None? {
        j := None;
      } else {
        var (t, n) := ReadToken(s).value;
        TokenWidth(s);
        ReadTokenIff(s, t, n);
        BlankCases(s);
        LexStep(s, i, t, n);
        assert s[n..] == text[i + n..];
        j := Some(i + n);
      }
    }
  }

  lemma ErrorFails(text: string, i: nat)
    requires i < |text| && ErrorAt(text, i)
    ensures Lex(text[i..], i).None?
  {
    hide Lex, UnclosedQuote, BadParameter, Foreign, ReadToken, CloseAt, BlankLength;
    var s := text[i..];
    BlankCases(s);
    if !StartsBlock(s) { NoTokenIff(s); }
    ErrorStops(s, i);
  }

  /** A step of a scan that fails further on. */
  lemma StepFails(text: string, i: nat, j: nat)
    requires i < j <= |text| && Step(text, i, j) && Lex(text[j..], j).None?
    ensures Lex(text[i..], i).None?
  {
    hide Lex, LineLength, CloseAt, TokenAt, ReadToken, BlankLength;
    var s := text[i..];
    if IsBlank(s[0]) {
      PassSpace(text, i);
    } else if StartsLine(s) {
      PassLine(text, i);
    } else if StartsBlock(s) {
      PassBlock(text, i);
      assert s[2..] == text[i + 2..];
    } else {
      var t :| TokenAt(s, t, j - i);
      ReadTokenIff(s, t, j - i);
      BlankCases(s);
      LexStep(s, i, t, j - i);
      assert s[j - i..] == text[j..];
    }
  }

  lemma {:induction false} ReachedLexes(text: string, i: nat)
    requires i <= |text| && Reached(text, i) && Lex(text[i..], i).None?
    ensures Lex(text, 0).None?
    decreases i
  {
    hide Lex, Step;
    if i == 0 {
      assert text[0..] == text;
    } else {
      var j: nat :| j < i && Reached(text, j) && Step(text, j, i);
      StepFails(text, j, i);
      ReachedLexes(text, j);
    }
  }
}
