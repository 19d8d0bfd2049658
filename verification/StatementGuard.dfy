/** The guards that look at a statement's first word must look where the
    tokenizer looks. */
module StatementGuard {
  import opened Text
  import opened Lexer
  import opened LexerLaws
  import opened Tokenizer

  /** Where `after_leading_comments` starts: like the lexer's blanks, but an
      unterminated block comment is left where it stands. */
  function LeadingLength(s: string): (n: nat)
    ensures n <= |s|
    decreases |s|
  {
    if s == "" then 0
    else if IsBlank(s[0]) then 1 + LeadingLength(s[1..])
    else if StartsLine(s) then LineLength(s) + LeadingLength(s[LineLength(s)..])
    else if StartsBlock(s) then
      var close := CloseAt(s[2..]);
      if close.None? then 0 else close.value + 4 + LeadingLength(s[close.value + 4..])
    else 0
  }

  /** `after_leading_comments` as written, answering the offset it slices from. */
  method AfterLeadingComments(sql: string) returns (i: nat)
    ensures i == LeadingLength(sql)
  {
    hide LeadingLength, LineLength, CloseAt;
    i := 0;
    assert sql[0..] == sql;
    while true
      invariant i <= |sql| && LeadingLength(sql) == i + LeadingLength(sql[i..])
      decreases |sql| - i
    {
      while i < |sql| && IsBlank(sql[i])
        invariant i <= |sql| && LeadingLength(sql) == i + LeadingLength(sql[i..])
      {
        LeadSpace(sql, i);
        i := i + 1;
      }
      if i + 1 < |sql| && sql[i] == '-' && sql[i + 1] == '-' {
        LeadLine(sql, i);
        i := SkipLine(sql, i);
        continue;
      }
      if i + 1 < |sql| && sql[i] == '/' && sql[i + 1] == '*' {
        LeadBlock(sql, i);
        var close := CloseAt(sql[i + 2..]);
        if close.None? { return; }
        i := i + 2 + close.value + 2;
        continue;
      }
      LeadingCases(sql[i..]);
      return;
    }
  }

  lemma LeadSpace(sql: string, i: nat)
    requires i < |sql| && IsBlank(sql[i])
    ensures LeadingLength(sql[i..]) == 1 + LeadingLength(sql[i + 1..])
  {
    hide LeadingLength;
    LeadingCases(sql[i..]);
    assert sql[i..][1..] == sql[i + 1..];
  }

  lemma LeadLine(sql: string, i: nat)
    requires i < |sql| && StartsLine(sql[i..])
    ensures var j := i + LineLength(sql[i..]);
            i < j <= |sql| && LeadingLength(sql[i..]) == j - i + LeadingLength(sql[j..])
  {
    hide LeadingLength, LineLength;
    var s := sql[i..];
    LeadingCases(s);
    LineMoves(s);
    assert s[LineLength(s)..] == sql[i + LineLength(s)..];
  }

  lemma LeadBlock(sql: string, i: nat)
    requires i < |sql| && StartsBlock(sql[i..])
    ensures CloseAt(sql[i + 2..]).None? ==> LeadingLength(sql[i..]) == 0
    ensures CloseAt(sql[i + 2..]).Some? ==>
              var j := i + CloseAt(sql[i + 2..]).value + 4;
              i < j <= |sql| && LeadingLength(sql[i..]) == j - i + LeadingLength(sql[j..])
  {
    hide LeadingLength, CloseAt;
    var s := sql[i..];
    LeadingCases(s);
    assert s[2..] == sql[i + 2..];
    if CloseAt(s[2..]).Some? { assert s[CloseAt(s[2..]).value + 4..] == sql[i + CloseAt(s[2..]).value + 4..]; }
  }

  /** One step of the leading scan. */
  lemma LeadingCases(s: string)
    ensures s == "" ==> LeadingLength(s) == 0
    ensures s != "" && IsBlank(s[0]) ==> LeadingLength(s) == 1 + LeadingLength(s[1..])
    ensures s != "" && !IsBlank(s[0]) && StartsLine(s) ==>
              LeadingLength(s) == LineLength(s) + LeadingLength(s[LineLength(s)..])
    ensures s != "" && !IsBlank(s[0]) && !StartsLine(s) && StartsBlock(s) ==>
              LeadingLength(s) == match CloseAt(s[2..])
                                  case None => 0
                                  case Some(k) => k + 4 + LeadingLength(s[k + 4..])
    ensures s != "" && !IsBlank(s[0]) && !StartsLine(s) && !StartsBlock(s) ==> LeadingLength(s) == 0
  {
  }

  /** Where the lexer's blanks end the guard's do too. */
  lemma {:induction false} LeadingIsBlank(s: string)
    requires BlankLength(s).Some?
    ensures LeadingLength(s) == BlankLength(s).value
    decreases |s|
  {
    if s != "" {
      if IsBlank(s[0]) {
        LeadingIsBlank(s[1..]);
      } else if StartsLine(s) {
        LeadingIsBlank(s[LineLength(s)..]);
      } else if StartsBlock(s) {
        LeadingIsBlank(s[CloseAt(s[2..]).value + 4..]);
      }
    }
  }

  /** On every text: the guard passes white space and closed comments, and stops at
      the first thing that is neither, an unclosed block comment included. */
  lemma {:induction false} LeadingIs(s: string)
    ensures var n := LeadingLength(s); IsGap(s[..n], n == |s|) && StopsHere(s[n..])
    decreases |s|
  {
    hide LeadingLength, IsGap, CloseAt, LineLength, StopsHere;
    LeadingCases(s);
    if s == "" || (!IsBlank(s[0]) && !StartsLine(s) && !(StartsBlock(s) && CloseAt(s[2..]).Some?)) {
      assert s[0..] == s && s[..0] == "";
      StopsAtOnce(s);
      GapOfBlank("", true);
      GapOfBlank("", false);
    } else {
      var k := if IsBlank(s[0]) then 1 else if StartsLine(s) then LineLength(s) else CloseAt(s[2..]).value + 4;
      if !IsBlank(s[0]) && StartsLine(s) { LineMoves(s); }
      LeadingIs(s[k..]);
      LeadingGap(s, k);
      var n := LeadingLength(s);
      assert s[n..] == s[k..][n - k..];
    }
  }

  /** Nothing for the guard to pass. */
  predicate StopsHere(s: string) {
    s != "" ==> !IsBlank(s[0]) && !StartsLine(s) && (StartsBlock(s) ==> CloseAt(s[2..]).None?)
  }

  lemma StopsAtOnce(s: string)
    requires s == "" || (!IsBlank(s[0]) && !StartsLine(s) && !(StartsBlock(s) && CloseAt(s[2..]).Some?))
    ensures StopsHere(s)
  {
    hide CloseAt;
  }

  lemma LeadingGap(s: string, k: nat)
    requires 0 < k <= |s| && LeadingLength(s) == k + LeadingLength(s[k..])
    requires IsGap(s[k..][..LeadingLength(s[k..])], LeadingLength(s[k..]) == |s[k..]|)
    requires if IsBlank(s[0]) then k == 1
             else if StartsLine(s) then k == LineLength(s)
             else StartsBlock(s) && CloseAt(s[2..]) == Some(k - 4)
    ensures IsGap(s[..LeadingLength(s)], LeadingLength(s) == |s|)
  {
    hide LeadingLength, IsGap, CloseAt, LineLength;
    var n := LeadingLength(s);
    if IsBlank(s[0]) {
      assert s[..n][1..] == s[1..][..n - 1];
      GapOfBlank(s[..n], n == |s|);
    } else if StartsLine(s) {
      LineLengthStops(s);
      NewlinePassed(s[k..]);
      GapOfLine(s, n);
    } else {
      GapOfBlock(s, n);
    }
  }

  lemma NewlinePassed(s: string)
    ensures s != "" && s[0] == '\n' ==> LeadingLength(s) > 0
  {
    LeadingCases(s);
  }

  /** Whenever a statement lexes, the guard looks at the first token's own
      offset, through any run of white space and comments. */
  lemma GuardSeesFirstToken(sql: string)
    requires Lex(sql, 0).Some?
    ensures LeadingLength(sql) == Lex(sql, 0).value[0].at
  {
    LeadingIsBlank(sql);
  }

  // -------------------------------------------------------- commits_on_its_own

  function Upper(s: string): (r: string)
    ensures |r| == |s|
  {
    seq(|s|, i requires 0 <= i < |s| => if 'a' <= s[i] <= 'z' then s[i] - 'a' + 'A' else s[i])
  }

  predicate IsDdlWord(w: string) {
    Upper(w) in {"CREATE", "DROP", "ALTER", "REINDEX", "TRUNCATE"}
  }

  /** `commits_on_its_own`. */
  predicate CommitsOnItsOwn(sql: string) {
    var rest := sql[LeadingLength(sql)..];
    IsDdlWord(rest[..AlphaRun(rest)])
  }

  lemma {:induction false} AlphaRunOfWord(s: string)
    ensures AlphaRun(s[..WordRun(s)]) == AlphaRun(s) <= WordRun(s)
  {
    if s != "" && InWord(s[0]) {
      AlphaRunOfWord(s[1..]);
      assert s[..WordRun(s)][1..] == s[1..][..WordRun(s) - 1];
    }
  }

  lemma NoWordNoDdl()
    ensures !IsDdlWord("")
  {
    assert |Upper("")| == 0;
  }

  /** `w` is the keyword `k`, in any case. */
  predicate SameWord(w: string, k: string) {
    |w| == |k| && forall i :: 0 <= i < |w| ==> w[i] == k[i] || (IsAlpha(k[i]) && w[i] as int == k[i] as int + 32)
  }

  /** The letters `w` begins with are the keyword `k`, in any case. */
  predicate BeginsWith(w: string, k: string) {
    |k| <= |w| && SameWord(w[..|k|], k) && (|w| == |k| || !IsAlpha(w[|k|]))
  }

  /** Which first tokens make the guard answer yes: the five words, and longer
      words that go on with something that is no letter. */
  predicate GuardedToken(t: Tok) {
    t.Word? && (BeginsWith(t.w, "CREATE") || BeginsWith(t.w, "DROP") || BeginsWith(t.w, "ALTER")
                || BeginsWith(t.w, "REINDEX") || BeginsWith(t.w, "TRUNCATE"))
  }

  /** The DDL words, spelled out. */
  lemma DdlWordIff(w: string)
    ensures IsDdlWord(w) <==> SameWord(w, "CREATE") || SameWord(w, "DROP") || SameWord(w, "ALTER")
                              || SameWord(w, "REINDEX") || SameWord(w, "TRUNCATE")
  {
    hide Upper;
    UpperIff(w, "CREATE");
    UpperIff(w, "DROP");
    UpperIff(w, "ALTER");
    UpperIff(w, "REINDEX");
    UpperIff(w, "TRUNCATE");
  }

  lemma UpperIff(w: string, k: string)
    requires forall i :: 0 <= i < |k| ==> 'A' <= k[i] <= 'Z'
    ensures Upper(w) == k <==> SameWord(w, k)
  {
    if SameWord(w, k) {
      assert Upper(w) == k;
    }
    if Upper(w) == k {
      forall i | 0 <= i < |w| ensures w[i] == k[i] || w[i] as int == k[i] as int + 32 {
        assert Upper(w)[i] == k[i];
      }
    }
  }

  /** The leading letters of a word are a keyword exactly when it begins with it. */
  lemma LettersAre(w: string, k: string)
    requires forall i :: 0 <= i < |k| ==> 'A' <= k[i] <= 'Z'
    ensures SameWord(w[..AlphaRun(w)], k) <==> BeginsWith(w, k)
  {
    if SameWord(w[..AlphaRun(w)], k) {
      AlphaRunEnds(w);
    } else if BeginsWith(w, k) {
      var front, rest := w[..|k|], w[|k|..];
      assert w == front + rest;
      LettersThen(front, rest);
    }
  }

  lemma {:induction false} AlphaRunEnds(w: string)
    ensures AlphaRun(w) < |w| ==> !IsAlpha(w[AlphaRun(w)])
  {
    if w != "" && IsAlpha(w[0]) { AlphaRunEnds(w[1..]); }
  }

  lemma GuardedIff(w: string)
    ensures IsDdlWord(w[..AlphaRun(w)]) <==> GuardedToken(Word(w))
  {
    hide IsDdlWord, SameWord, BeginsWith;
    DdlWordIff(w[..AlphaRun(w)]);
    LettersAre(w, "CREATE");
    LettersAre(w, "DROP");
    LettersAre(w, "ALTER");
    LettersAre(w, "REINDEX");
    LettersAre(w, "TRUNCATE");
  }

  /** On every statement that lexes the guard answers yes if and only if the first
      token is a word whose leading letters are CREATE, DROP, ALTER, REINDEX or
      TRUNCATE, in any case. */
  lemma CommitsIff(sql: string)
    requires Lex(sql, 0).Some?
    ensures CommitsOnItsOwn(sql) <==> GuardedToken(Lex(sql, 0).value[0].tok)
  {
    hide IsDdlWord, Lex, BeginsWith;
    var first := FirstToken(sql);
    NoWordNoDdl();
    GuardSeesFirstToken(sql);
    var rest := sql[LeadingLength(sql)..];
    if rest == "" {
      assert rest[..AlphaRun(rest)] == "";
    } else {
      FirstTokenIsWord(rest);
      if StartsWord(rest[0]) {
        AlphaRunOfWord(rest);
        assert first.w[..AlphaRun(first.w)] == rest[..AlphaRun(rest)];
        GuardedIff(first.w);
      } else {
        assert rest[..AlphaRun(rest)] == "";
      }
    }
  }

  lemma FirstToken(sql: string) returns (t: Tok)
    requires Lex(sql, 0).Some?
    ensures t == Lex(sql, 0).value[0].tok
    ensures var rest := sql[LeadingLength(sql)..];
            if rest == "" then t == Eof else ReadToken(rest).Some? && t == ReadToken(rest).value.0
  {
    hide ReadToken;
    LeadingIsBlank(sql);
    t := Lex(sql, 0).value[0].tok;
  }

  lemma FirstTokenIsWord(s: string)
    requires s != "" && ReadToken(s).Some?
    ensures StartsWord(s[0]) ==> ReadToken(s).value.0 == Word(s[..WordRun(s)])
    ensures !StartsWord(s[0]) ==> !ReadToken(s).value.0.Word?
  {
    if !StartsWord(s[0]) && !(s[0] in "'\"$") && !IsDigit(s[0]) && s[0] != '.' { OperatorIsNoWord(s); }
    if s[0] == '.' { OperatorIsNoWord(s); }
  }

  lemma OperatorIsNoWord(s: string)
    requires s != ""
    ensures ReadOperator(s).Some? ==> !ReadOperator(s).value.0.Word?
  {
    if ReadOperator(s).Some? { OperatorSpells(s); }
  }

  /** In particular no DDL statement escapes: a first token that is one of the five
      keywords, in any case, is always seen. */
  lemma EveryDdlIsSeen(sql: string)
    requires Lex(sql, 0).Some? && Lex(sql, 0).value[0].tok.Word?
    requires var w := Lex(sql, 0).value[0].tok.w;
             || SameWord(w, "CREATE") || SameWord(w, "DROP") || SameWord(w, "ALTER")
             || SameWord(w, "REINDEX") || SameWord(w, "TRUNCATE")
    ensures CommitsOnItsOwn(sql)
  {
    var w := Lex(sql, 0).value[0].tok.w;
    hide Lex, CommitsOnItsOwn, SameWord;
    CommitsIff(sql);
    assert w[..|w|] == w;
    SameLength(w);
  }

  lemma SameLength(w: string)
    ensures SameWord(w, "CREATE") ==> |w| == |"CREATE"|
    ensures SameWord(w, "DROP") ==> |w| == |"DROP"|
    ensures SameWord(w, "ALTER") ==> |w| == |"ALTER"|
    ensures SameWord(w, "REINDEX") ==> |w| == |"REINDEX"|
    ensures SameWord(w, "TRUNCATE") ==> |w| == |"TRUNCATE"|
  {
  }

  /** The guard says yes to more: a longer word that begins with a keyword. */
  lemma GuardOverApproximates()
    ensures CommitsOnItsOwn("CREATE_X") && !IsDdlWord("CREATE_X")
  {
    var sql := "CREATE_X";
    assert LeadingLength(sql) == 0 && sql[0..] == sql;
    LettersThen("CREATE", "_X");
    assert sql == "CREATE" + "_X" && sql[..6] == "CREATE";
    assert Upper("CREATE") == "CREATE";
    assert |Upper(sql)| == 8 && Upper(sql)[6] == '_';
  }

  lemma {:induction false} LettersThen(w: string, rest: string)
    requires (forall i :: 0 <= i < |w| ==> IsAlpha(w[i])) && (rest == "" || !IsAlpha(rest[0]))
    ensures AlphaRun(w + rest) == |w|
  {
    if w == "" {
      assert w + rest == rest;
    } else {
      assert (w + rest)[1..] == w[1..] + rest;
      LettersThen(w[1..], rest);
    }
  }
}
