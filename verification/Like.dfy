/** LIKE over one text: the pattern compiler, the shapes answered by substring
    search, and the wildcard walk that backtracks only to the last `%`. */
module Like {
  import opened Text

  datatype Token = Ch(c: char) | One | Many

  // ------------------------------------------------------------- the meaning

  /** A text matches when its characters can be dealt out to the tokens: one to
      each literal (the same one) and each `_`, and any run to each `%`. */
  ghost predicate Matches(tokens: seq<Token>, text: string)
    decreases |tokens|
  {
    if tokens == [] then text == ""
    else match tokens[0]
      case Ch(c) => text != "" && text[0] == c && Matches(tokens[1..], text[1..])
      case One => text != "" && Matches(tokens[1..], text[1..])
      case Many => exists k :: 0 <= k <= |text| && Matches(tokens[1..], text[k..])
  }

  // ------------------------------------------------------------ the compiler

  /** LIKE takes a pattern's characters as they are; ILIKE lower-cases each, which
      may give several. */
  datatype Fold = Plain | Lowered(lower: char -> string)

  /** `push_char`. */
  function Pushed(fold: Fold, c: char): seq<Token> {
    match fold
    case Plain => [Ch(c)]
    case Lowered(lower) => var s := lower(c); seq(|s|, i requires 0 <= i < |s| => Ch(s[i]))
  }

  /** `LikeMatcher::compile`, up to the shape: an escape makes the next character
      literal, adjacent `%` are one, and a trailing escape is an error. */
  function Compile(pattern: string, escape: Option<char>, fold: Fold, done: seq<Token>): Option<seq<Token>>
    decreases |pattern|
  {
    if pattern == "" then Some(done)
    else if escape == Some(pattern[0]) then
      if |pattern| < 2 then None
      else Compile(pattern[2..], escape, fold, done + Pushed(fold, pattern[1]))
    else if pattern[0] == '%' then
      if done != [] && done[|done| - 1] == Many then Compile(pattern[1..], escape, fold, done)
      else Compile(pattern[1..], escape, fold, done + [Many])
    else if pattern[0] == '_' then Compile(pattern[1..], escape, fold, done + [One])
    else Compile(pattern[1..], escape, fold, done + Pushed(fold, pattern[0]))
  }

  /** What a pattern says, character by character, with no `%` merged. */
  function Tokens(pattern: string, escape: Option<char>, fold: Fold): Option<seq<Token>>
    decreases |pattern|
  {
    if pattern == "" then Some([])
    else if escape == Some(pattern[0]) then
      if |pattern| < 2 then None
      else
        var rest := Tokens(pattern[2..], escape, fold);
        if rest.None? then None else Some(Pushed(fold, pattern[1]) + rest.value)
    else
      var rest := Tokens(pattern[1..], escape, fold);
      if rest.None? then None
      else
        var first := if pattern[0] == '%' then [Many] else if pattern[0] == '_' then [One] else Pushed(fold, pattern[0]);
        Some(first + rest.value)
  }

  /** The compiling loop of `LikeMatcher::compile` as written. */
  method CompilePattern(pattern: string, escape: Option<char>, fold: Fold) returns (r: Option<seq<Token>>)
    ensures r == Compile(pattern, escape, fold, [])
  {
    var rest, tokens: seq<Token> := pattern, [];
    while rest != ""
      invariant Compile(rest, escape, fold, tokens) == Compile(pattern, escape, fold, [])
      decreases |rest|
    {
      var c := rest[0];
      if Some(c) == escape {
        if |rest| < 2 { return None; }
        tokens := tokens + Pushed(fold, rest[1]);
        rest := rest[2..];
      } else {
        if c == '%' {
          if tokens == [] || tokens[|tokens| - 1] != Many {
            tokens := tokens + [Many];
          }
        } else if c == '_' {
          tokens := tokens + [One];
        } else {
          tokens := tokens + Pushed(fold, c);
        }
        rest := rest[1..];
      }
    }
    r := Some(tokens);
  }

  datatype Shape =
    | Any
    | Exact(s: string)
    | Prefix(s: string)
    | Suffix(s: string)
    | Contains(s: string)
    | General(tokens: seq<Token>)

  predicate Literal(tokens: seq<Token>) { forall i :: 0 <= i < |tokens| ==> tokens[i].Ch? }

  function Spelled(tokens: seq<Token>): (s: string)
    requires Literal(tokens)
    ensures |s| == |tokens| && forall i :: 0 <= i < |s| ==> tokens[i] == Ch(s[i])
  {
    seq(|tokens|, i requires 0 <= i < |tokens| => tokens[i].c)
  }

  predicate AllMany(tokens: seq<Token>) { forall i :: 0 <= i < |tokens| ==> tokens[i] == Many }

  /** `shape_of`. */
  function ShapeOf(tokens: seq<Token>): Shape {
    if AllMany(tokens) then (if tokens == [] then Exact("") else Any)
    else
      var starts, ends := tokens[0] == Many, tokens[|tokens| - 1] == Many;
      var from, to := if starts then 1 else 0, if ends then |tokens| - 1 else |tokens|;
      if to < from || !Literal(tokens[from..to]) then General(tokens)
      else
        var s := Spelled(tokens[from..to]);
        if starts && ends then Contains(s)
        else if starts then Suffix(s)
        else if ends then Prefix(s)
        else Exact(s)
  }

  /** `matches_folded`, with the wildcard walk's answer for the general shape. */
  ghost predicate ShapeMatches(shape: Shape, text: string) {
    match shape
    case Any => true
    case Exact(s) => text == s
    case Prefix(s) => s <= text
    case Suffix(s) => |s| <= |text| && text[|text| - |s|..] == s
    case Contains(s) => exists k :: 0 <= k <= |text| && s <= text[k..]
    case General(tokens) => Matches(tokens, text)
  }

  // ----------------------------------------------------------- the fast shapes

  lemma {:induction false} MatchesLiteral(tokens: seq<Token>, rest: seq<Token>, text: string)
    requires Literal(tokens)
    ensures Matches(tokens + rest, text) <==>
            Spelled(tokens) <= text && Matches(rest, text[|tokens|..])
    decreases |tokens|
  {
    if tokens == [] {
      assert tokens + rest == rest;
      assert text[0..] == text;
    } else {
      assert (tokens + rest)[1..] == tokens[1..] + rest;
      assert Spelled(tokens) == [tokens[0].c] + Spelled(tokens[1..]);
      if text != "" {
        MatchesLiteral(tokens[1..], rest, text[1..]);
        assert text == [text[0]] + text[1..];
        if |tokens| <= |text| { assert text[1..][|tokens| - 1..] == text[|tokens|..]; }
      }
    }
  }

  lemma MatchesOneMany(text: string)
    ensures Matches([Many], text)
  {
    assert [Many][1..] == [] && text[|text|..] == "";
    assert Matches([Many][1..], text[|text|..]);
  }

  lemma {:induction false} MatchesAllMany(tokens: seq<Token>, text: string)
    requires AllMany(tokens) && tokens != []
    ensures Matches(tokens, text)
    decreases |tokens|
  {
    if |tokens| == 1 {
      assert tokens == [Many];
      MatchesOneMany(text);
    } else {
      MatchesAllMany(tokens[1..], text);
      assert text[0..] == text;
    }
  }

  lemma MatchesThenEnd(tokens: seq<Token>, text: string)
    requires Literal(tokens)
    ensures Matches(tokens, text) <==> text == Spelled(tokens)
    ensures Matches(tokens + [Many], text) <==> Spelled(tokens) <= text
  {
    MatchesLiteral(tokens, [], text);
    assert tokens + [] == tokens;
    MatchesLiteral(tokens, [Many], text);
    if |tokens| <= |text| { MatchesOneMany(text[|tokens|..]); }
  }

  /** Every shape the compiler picks means what its tokens mean. */
  lemma ShapeIsExact(tokens: seq<Token>, text: string)
    ensures ShapeMatches(ShapeOf(tokens), text) <==> Matches(tokens, text)
  {
    if AllMany(tokens) {
      if tokens != [] { MatchesAllMany(tokens, text); }
    } else {
      var starts, ends := tokens[0] == Many, tokens[|tokens| - 1] == Many;
      var from, to := if starts then 1 else 0, if ends then |tokens| - 1 else |tokens|;
      if from <= to && Literal(tokens[from..to]) {
        var inner := tokens[from..to];
        if starts {
          assert tokens[1..] == if ends then inner + [Many] else inner;
          forall k | 0 <= k <= |text|
            ensures Matches(tokens[1..], text[k..]) <==>
                    if ends then Spelled(inner) <= text[k..] else text[k..] == Spelled(inner)
          {
            MatchesThenEnd(inner, text[k..]);
          }
          SuffixAt(Spelled(inner), text);
        } else {
          assert tokens == if ends then inner + [Many] else inner;
          MatchesThenEnd(inner, text);
        }
      }
    }
  }

  lemma SuffixAt(s: string, text: string)
    ensures (exists k :: 0 <= k <= |text| && text[k..] == s) <==>
            |s| <= |text| && text[|text| - |s|..] == s
  {
    if k :| 0 <= k <= |text| && text[k..] == s { assert k == |text| - |s|; }
  }

  // -------------------------------------------------------- the wildcard walk

  /** A run of tokens with no `%`. */
  predicate Fixed(tokens: seq<Token>) { forall i :: 0 <= i < |tokens| ==> tokens[i] != Many }

  /** Whether a `%`-free run fits the text from position `t`. */
  predicate Fits(tokens: seq<Token>, text: string, t: nat) {
    && t + |tokens| <= |text|
    && forall i :: 0 <= i < |tokens| ==> tokens[i] == One || tokens[i] == Ch(text[t + i])
  }

  lemma {:induction false} MatchesFixed(run: seq<Token>, rest: seq<Token>, text: string, t: nat)
    requires Fixed(run) && t <= |text|
    ensures Matches(run + rest, text[t..]) <==>
            Fits(run, text, t) && Matches(rest, text[t + |run|..])
    decreases |run|
  {
    if run == [] {
      assert run + rest == rest;
    } else {
      MatchesFirst(run + rest, text[t..]);
      hide Matches;
      assert (run + rest)[1..] == run[1..] + rest && (run + rest)[0] == run[0];
      if t < |text| {
        MatchesFixed(run[1..], rest, text, t + 1);
        assert text[t..][1..] == text[t + 1..];
        FitsFirst(run, text, t);
      }
    }
  }

  lemma MatchesFirst(tokens: seq<Token>, text: string)
    requires tokens != [] && tokens[0] != Many
    ensures Matches(tokens, text) <==>
            text != "" && (tokens[0] == One || tokens[0] == Ch(text[0])) && Matches(tokens[1..], text[1..])
  {
  }

  lemma FitsFirst(run: seq<Token>, text: string, t: nat)
    requires Fixed(run) && run != [] && t < |text|
    ensures Fits(run, text, t) <==> (run[0] == One || run[0] == Ch(text[t])) && Fits(run[1..], text, t + 1)
  {
    if t + |run| <= |text| && Fits(run[1..], text, t + 1) && (run[0] == One || run[0] == Ch(text[t])) {
      forall i | 0 <= i < |run| ensures run[i] == One || run[i] == Ch(text[t + i]) {
        if i > 0 { assert run[1..][i - 1] == run[i]; }
      }
    }
  }

  /** Some position from `from` on matches the tokens. */
  ghost predicate MatchesFrom(tokens: seq<Token>, text: string, from: nat) {
    exists k :: from <= k <= |text| && Matches(tokens, text[k..])
  }

  lemma MatchesMany(tokens: seq<Token>, text: string, t: nat)
    requires tokens != [] && tokens[0] == Many && t <= |text|
    ensures Matches(tokens, text[t..]) <==> MatchesFrom(tokens[1..], text, t)
  {
    if Matches(tokens, text[t..]) {
      var k :| 0 <= k <= |text[t..]| && Matches(tokens[1..], text[t..][k..]);
      assert text[t..][k..] == text[t + k..];
    }
    if MatchesFrom(tokens[1..], text, t) {
      var k :| t <= k <= |text| && Matches(tokens[1..], text[k..]);
      assert text[t..][k - t..] == text[k..];
    }
  }

  /** At a second `%` the earliest fit of the run before it is as good as any
      later one, so the walk may forget the first `%`. */
  lemma ForgetEarlierStar(run: seq<Token>, rest: seq<Token>, text: string, st: nat)
    requires Fixed(run) && Fits(run, text, st) && rest != [] && rest[0] == Many
    ensures MatchesFrom(run + rest, text, st) <==> Matches(rest, text[st + |run|..])
  {
    hide Matches;
    MatchesFixed(run, rest, text, st);
    MatchesMany(rest, text, st + |run|);
    if MatchesFrom(run + rest, text, st) {
      var k :| st <= k <= |text| && Matches(run + rest, text[k..]);
      MatchesFixed(run, rest, text, k);
      MatchesMany(rest, text, k + |run|);
      var j :| k + |run| <= j <= |text| && Matches(rest[1..], text[j..]);
    }
  }

  /** When the text runs out only the current fit of the run is left to try. */
  lemma OnlyThisFit(run: seq<Token>, rest: seq<Token>, text: string, st: nat)
    requires Fixed(run) && Fits(run, text, st) && st + |run| == |text|
    ensures MatchesFrom(run + rest, text, st) <==> Matches(rest, "")
  {
    hide Matches;
    MatchesFixed(run, rest, text, st);
    assert text[|text|..] == "";
    if MatchesFrom(run + rest, text, st) {
      var k :| st <= k <= |text| && Matches(run + rest, text[k..]);
      MatchesFixed(run, rest, text, k);
      assert k == st;
    }
  }

  /** On a mismatch the last `%` absorbs one more character. */
  lemma AbsorbOne(run: seq<Token>, rest: seq<Token>, text: string, st: nat)
    requires Fixed(run) && Fits(run, text, st) && st + |run| < |text|
    requires rest == [] || (rest[0].Ch? && rest[0].c != text[st + |run|])
    ensures MatchesFrom(run + rest, text, st) <==> MatchesFrom(run + rest, text, st + 1)
  {
    MatchesFixed(run, rest, text, st);
    if MatchesFrom(run + rest, text, st) {
      var k :| st <= k <= |text| && Matches(run + rest, text[k..]);
      assert k != st;
    }
  }

  lemma {:induction false} MatchesEmpty(tokens: seq<Token>)
    ensures Matches(tokens, "") <==> AllMany(tokens)
    decreases |tokens|
  {
    if tokens != [] {
      MatchesEmpty(tokens[1..]);
      if tokens[0] == Many {
        MatchesMany(tokens, "", 0);
        assert ""[0..] == "";
        assert tokens == [Many] + tokens[1..];
      }
    }
  }

  /** Where the walk stands: the run of tokens since the last `%` (at `sp`, or
      the pattern's start when `sp` is -1) fits the text from `st`, and the
      answer still depends only on the tokens after that `%`. */
  ghost predicate Walking(tokens: seq<Token>, text: string, sp: int, st: nat, p: nat, t: nat) {
    && -1 <= sp < p <= |tokens| && st <= t <= |text| && t == st + (p - sp - 1)
    && Fixed(tokens[sp + 1..p]) && Fits(tokens[sp + 1..p], text, st)
    && if sp == -1 then st == 0
       else tokens[sp] == Many && (Matches(tokens, text) <==> MatchesFrom(tokens[sp + 1..], text, st))
  }

  lemma WalkAnswer(tokens: seq<Token>, text: string, sp: int, st: nat, p: nat, t: nat)
    requires Walking(tokens, text, sp, st, p, t)
    ensures sp == -1 ==> (Matches(tokens, text) <==> Matches(tokens[p..], text[t..]))
    ensures t == |text| ==> (Matches(tokens, text) <==> AllMany(tokens[p..]))
    ensures p < |tokens| && tokens[p] == Many ==> (Matches(tokens, text) <==> Matches(tokens[p..], text[t..]))
  {
    hide Matches, Fits, Fixed;
    var run, rest := tokens[sp + 1..p], tokens[p..];
    assert tokens[sp + 1..] == run + rest;
    MatchesFixed(run, rest, text, st);
    assert text[0..] == text && tokens[0..] == tokens && text[|text|..] == "";
    if t == |text| {
      MatchesEmpty(rest);
      if sp != -1 { OnlyThisFit(run, rest, text, st); }
    } else if p < |tokens| && tokens[p] == Many && sp != -1 {
      ForgetEarlierStar(run, rest, text, st);
    }
  }

  lemma MeetStar(tokens: seq<Token>, text: string, sp: int, st: nat, p: nat, t: nat)
    requires Walking(tokens, text, sp, st, p, t) && t < |text| && p < |tokens| && tokens[p] == Many
    ensures Walking(tokens, text, p, t, p + 1, t)
  {
    WalkAnswer(tokens, text, sp, st, p, t);
    hide Matches;
    MatchesMany(tokens[p..], text, t);
    assert tokens[p..][1..] == tokens[p + 1..];
    assert tokens[p + 1..p + 1] == [];
  }

  lemma FitOne(tokens: seq<Token>, text: string, sp: int, st: nat, p: nat, t: nat)
    requires Walking(tokens, text, sp, st, p, t) && t < |text| && p < |tokens|
    requires tokens[p] == One || tokens[p] == Ch(text[t])
    ensures Walking(tokens, text, sp, st, p + 1, t + 1)
  {
    hide Matches, MatchesFrom;
    assert tokens[sp + 1..p + 1] == tokens[sp + 1..p] + [tokens[p]];
  }

  lemma Backtrack(tokens: seq<Token>, text: string, sp: int, st: nat, p: nat, t: nat)
    requires Walking(tokens, text, sp, st, p, t) && t < |text| && sp != -1
    requires p == |tokens| || (tokens[p].Ch? && tokens[p].c != text[t])
    ensures Walking(tokens, text, sp, st + 1, sp + 1, st + 1)
  {
    hide Matches;
    var run, rest := tokens[sp + 1..p], tokens[p..];
    assert tokens[sp + 1..] == run + rest;
    AbsorbOne(run, rest, text, st);
    assert tokens[sp + 1..sp + 1] == [];
  }

  lemma Mismatch(tokens: seq<Token>, text: string, p: nat, t: nat)
    requires p <= |tokens| && t < |text|
    requires p == |tokens| || (tokens[p].Ch? && tokens[p].c != text[t])
    ensures !Matches(tokens[p..], text[t..])
  {
  }

  /** `wildcard` as written answers exactly the dealing-out of `Matches`. */
  method Wildcard(tokens: seq<Token>, text: string) returns (r: bool)
    ensures r <==> Matches(tokens, text)
  {
    hide Matches, Walking;
    var t, p, sp, st := 0, 0, -1, 0;
    StartWalking(tokens, text);
    while t < |text|
      invariant t <= |text| && p <= |tokens| && -1 <= sp && st <= |text|
      invariant Walking(tokens, text, sp, st, p, t)
      decreases if sp == -1 then |text| + 1 else |text| - st, |tokens| - p
    {
      WalkBounds(tokens, text, sp, st, p, t);
      if p < |tokens| && tokens[p] == Many {
        MeetStar(tokens, text, sp, st, p, t);
        sp, st := p, t;
        p := p + 1;
      } else if p < |tokens| && (tokens[p] == One || tokens[p] == Ch(text[t])) {
        FitOne(tokens, text, sp, st, p, t);
        t, p := t + 1, p + 1;
      } else if sp != -1 {
        Backtrack(tokens, text, sp, st, p, t);
        p, t, st := sp + 1, st + 1, st + 1;
      } else {
        WalkAnswer(tokens, text, sp, st, p, t);
        Mismatch(tokens, text, p, t);
        return false;
      }
    }
    WalkBounds(tokens, text, sp, st, p, t);
    WalkAnswer(tokens, text, sp, st, p, t);
    while p < |tokens|
      invariant p <= |tokens|
      invariant Matches(tokens, text) <==> AllMany(tokens[p..])
    {
      assert tokens[p..] == [tokens[p]] + tokens[p + 1..];
      if tokens[p] != Many {
        assert tokens[p..][0] != Many;
        return false;
      }
      p := p + 1;
    }
    r := true;
  }

  lemma StartWalking(tokens: seq<Token>, text: string)
    ensures Walking(tokens, text, -1, 0, 0, 0)
  {
    assert tokens[0..0] == [];
  }

  lemma WalkBounds(tokens: seq<Token>, text: string, sp: int, st: nat, p: nat, t: nat)
    requires Walking(tokens, text, sp, st, p, t)
    ensures -1 <= sp < p <= |tokens| && st <= t <= |text|
  {
  }

  // ------------------------------------------------- merging adjacent `%`

  lemma {:induction false} MergeMany(front: seq<Token>, rest: seq<Token>, text: string)
    ensures Matches(front + [Many, Many] + rest, text) <==> Matches(front + [Many] + rest, text)
    decreases |front|
  {
    if front == [] {
      assert front + [Many, Many] + rest == [Many] + ([Many] + rest);
      assert front + [Many] + rest == [Many] + rest;
      MergeAtFront(rest, text);
    } else {
      assert (front + [Many, Many] + rest)[1..] == front[1..] + [Many, Many] + rest;
      assert (front + [Many] + rest)[1..] == front[1..] + [Many] + rest;
      forall k | 0 <= k <= |text|
        ensures Matches(front[1..] + [Many, Many] + rest, text[k..]) <==>
                Matches(front[1..] + [Many] + rest, text[k..])
      {
        MergeMany(front[1..], rest, text[k..]);
      }
    }
  }

  lemma MergeAtFront(rest: seq<Token>, text: string)
    ensures Matches([Many] + ([Many] + rest), text) <==> Matches([Many] + rest, text)
  {
    var one, two := [Many] + rest, [Many] + ([Many] + rest);
    assert one[1..] == rest && two[1..] == one;
    assert text[0..] == text;
    MatchesMany(one, text, 0);
    MatchesMany(two, text, 0);
    hide Matches;
    if MatchesFrom(one, text, 0) {
      var k :| 0 <= k <= |text| && Matches(one, text[k..]);
      MatchesMany(one, text, k);
    }
  }

  /** The compiled tokens mean what the pattern says, and a pattern compiles
      exactly when it does not end in a bare escape. */
  lemma {:induction false} CompileKeepsMeaning(pattern: string, escape: Option<char>, fold: Fold, done: seq<Token>,
                                               text: string)
    ensures Compile(pattern, escape, fold, done).Some? <==> Tokens(pattern, escape, fold).Some?
    ensures Tokens(pattern, escape, fold).Some? ==>
              (Matches(Compile(pattern, escape, fold, done).value, text) <==>
               Matches(done + Tokens(pattern, escape, fold).value, text))
    decreases |pattern|, 0
  {
    hide Matches;
    if pattern == "" {
      assert done + [] == done;
    } else if escape == Some(pattern[0]) {
      if |pattern| >= 2 { CompileStep(pattern[2..], escape, fold, done, Pushed(fold, pattern[1]), text); }
    } else if pattern[0] == '%' && done != [] && done[|done| - 1] == Many {
      CompileKeepsMeaning(pattern[1..], escape, fold, done, text);
      if Tokens(pattern[1..], escape, fold).Some? { MergeAfter(done, Tokens(pattern[1..], escape, fold).value, text); }
    } else {
      var first := if pattern[0] == '%' then [Many] else if pattern[0] == '_' then [One] else Pushed(fold, pattern[0]);
      CompileStep(pattern[1..], escape, fold, done, first, text);
    }
  }

  lemma MergeAfter(done: seq<Token>, rest: seq<Token>, text: string)
    requires done != [] && done[|done| - 1] == Many
    ensures Matches(done + rest, text) <==> Matches(done + ([Many] + rest), text)
  {
    var front := done[..|done| - 1];
    assert done + ([Many] + rest) == front + [Many, Many] + rest;
    assert done + rest == front + [Many] + rest;
    MergeMany(front, rest, text);
  }

  lemma {:induction false} CompileStep(rest: string, escape: Option<char>, fold: Fold, done: seq<Token>, first: seq<Token>,
                                       text: string)
    ensures Compile(rest, escape, fold, done + first).Some? <==> Tokens(rest, escape, fold).Some?
    ensures Tokens(rest, escape, fold).Some? ==>
              (Matches(Compile(rest, escape, fold, done + first).value, text) <==>
               Matches(done + (first + Tokens(rest, escape, fold).value), text))
    decreases |rest|, 1
  {
    hide Matches;
    CompileKeepsMeaning(rest, escape, fold, done + first, text);
    if Tokens(rest, escape, fold).Some? {
      assert done + first + Tokens(rest, escape, fold).value == done + (first + Tokens(rest, escape, fold).value);
    }
  }

  /** `s LIKE pattern`, as the pattern reads. */
  ghost predicate IsLike(pattern: string, escape: Option<char>, text: string) {
    Says(pattern, escape, Plain, text)
  }

  ghost predicate Says(pattern: string, escape: Option<char>, fold: Fold, text: string) {
    Tokens(pattern, escape, fold).Some? && Matches(Tokens(pattern, escape, fold).value, text)
  }

  /** The row check: compile, pick a shape, answer from the shape. */
  lemma RowCheckIsExact(pattern: string, escape: Option<char>, fold: Fold, text: string)
    ensures Compile(pattern, escape, fold, []).Some? <==> Tokens(pattern, escape, fold).Some?
    ensures Compile(pattern, escape, fold, []).Some? ==>
              (ShapeMatches(ShapeOf(Compile(pattern, escape, fold, []).value), text) <==> Says(pattern, escape, fold, text))
  {
    hide Matches, ShapeMatches, ShapeOf;
    CompileKeepsMeaning(pattern, escape, fold, [], text);
    if Tokens(pattern, escape, fold).Some? {
      assert [] + Tokens(pattern, escape, fold).value == Tokens(pattern, escape, fold).value;
      ShapeIsExact(Compile(pattern, escape, fold, []).value, text);
    }
  }

  // -------------------------------------------------------------------- ILIKE

  predicate IsAsciiText(s: string) { forall i :: 0 <= i < |s| ==> s[i] as int < 128 }

  function AsciiLower(c: char): char { if 'A' <= c <= 'Z' then (c as int + 32) as char else c }

  /** Lower-casing of whole texts, by the standard library, agrees with the octet
      loop on ASCII. */
  ghost predicate LowersAscii(lower: string -> string) {
    forall s: string :: IsAsciiText(s) ==>
      |lower(s)| == |s| && forall i :: 0 <= i < |s| ==> lower(s)[i] == AsciiLower(s[i])
  }

  /** The text `matches` hands on: ASCII is lower-cased in place in a reused buffer,
      other text by the standard library, and either way it is the whole text
      lower-cased. */
  method FoldText(insensitive: bool, lower: string -> string, text: string) returns (folded: string)
    requires LowersAscii(lower)
    ensures folded == if insensitive then lower(text) else text
  {
    folded := text;
    if insensitive {
      var ascii := true;
      for i := 0 to |text|
        invariant ascii <==> forall j :: 0 <= j < i ==> text[j] as int < 128
      {
        ascii := ascii && text[i] as int < 128;
      }
      if ascii {
        for i := 0 to |text|
          invariant |folded| == |text|
          invariant forall j :: 0 <= j < |text| ==> folded[j] == if j < i then AsciiLower(text[j]) else text[j]
        {
          folded := folded[i := AsciiLower(folded[i])];
        }
        assert IsAsciiText(text) && folded == lower(text);
      } else {
        folded := lower(text);
      }
    }
  }

  // ------------------------------------------------- LIKE, a character at a time

  /** What each first character of a pattern asks of a text: `%` any run, `_` one
      character, an escape the very character after it, any other itself. */
  lemma LikeReads(c: char, rest: string, escape: Option<char>, text: string)
    requires escape != Some(c)
    ensures IsLike([c] + rest, escape, text) <==>
            if c == '%' then exists k :: 0 <= k <= |text| && IsLike(rest, escape, text[k..])
            else text != "" && (c == '_' || text[0] == c) && IsLike(rest, escape, text[1..])
  {
    var pattern := [c] + rest;
    assert pattern[1..] == rest && pattern[0] == c;
    TokensStep(pattern, escape);
    if Tokens(rest, escape, Plain).Some? {
      var ts := Tokens(rest, escape, Plain).value;
      var first := if c == '%' then Many else if c == '_' then One else Ch(c);
      assert ([first] + ts)[0] == first && ([first] + ts)[1..] == ts;
      hide Tokens;
      MatchesStep([first] + ts, text);
      hide Matches;
      if c == '%' {
        if k :| 0 <= k <= |text| && Matches(ts, text[k..]) { assert IsLike(rest, escape, text[k..]); }
        if k :| 0 <= k <= |text| && IsLike(rest, escape, text[k..]) { assert Matches(ts, text[k..]); }
      }
    } else {
      hide Tokens, Matches;
    }
  }

  lemma TokensStep(pattern: string, escape: Option<char>)
    requires pattern != "" && escape != Some(pattern[0])
    ensures var rest := Tokens(pattern[1..], escape, Plain);
            var c := pattern[0];
            Tokens(pattern, escape, Plain) ==
            if rest.None? then None
            else Some([if c == '%' then Many else if c == '_' then One else Ch(c)] + rest.value)
  {
  }

  lemma MatchesStep(tokens: seq<Token>, text: string)
    requires tokens != []
    ensures Matches(tokens, text) <==>
            if tokens[0] == Many then exists k :: 0 <= k <= |text| && Matches(tokens[1..], text[k..])
            else text != "" && (tokens[0] == One || tokens[0] == Ch(text[0])) && Matches(tokens[1..], text[1..])
  {
  }

  lemma EscapeReads(e: char, c: char, rest: string, text: string)
    ensures IsLike([e, c] + rest, Some(e), text) <==> text != "" && text[0] == c && IsLike(rest, Some(e), text[1..])
    ensures !IsLike([e], Some(e), text)
  {
    var pattern := [e, c] + rest;
    assert pattern[2..] == rest && pattern[0] == e && pattern[1] == c;
    if Tokens(rest, Some(e), Plain).Some? {
      var ts := Tokens(rest, Some(e), Plain).value;
      assert ([Ch(c)] + ts)[0] == Ch(c) && ([Ch(c)] + ts)[1..] == ts;
      MatchesStep([Ch(c)] + ts, text);
    }
  }

  lemma EmptyPattern(escape: Option<char>, text: string)
    ensures IsLike("", escape, text) <==> text == ""
  {
  }

  /** ILIKE asks of the lower-cased text the characters each pattern character
      lower-cases to. */
  lemma IlikeReads(c: char, rest: string, escape: Option<char>, lower: char -> string, text: string)
    requires escape != Some(c) && c != '%' && c != '_'
    ensures Says([c] + rest, escape, Lowered(lower), text) <==>
            lower(c) <= text && Says(rest, escape, Lowered(lower), text[|lower(c)|..])
  {
    var fold, pattern := Lowered(lower), [c] + rest;
    assert pattern[1..] == rest && pattern[0] == c;
    var run := Pushed(fold, c);
    assert Literal(run) && Spelled(run) == lower(c);
    if Tokens(rest, escape, fold).Some? {
      var ts := Tokens(rest, escape, fold).value;
      assert Tokens(pattern, escape, fold) == Some(run + ts);
      MatchesLiteral(run, ts, text);
    }
  }

  /** The octet loop lower-cases the 26 letters and nothing else. */
  lemma AsciiLowerIs(c: char)
    ensures AsciiLower(c) as int == if 65 <= c as int <= 90 then c as int + 32 else c as int
  {
  }
}
