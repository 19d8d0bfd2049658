/** Folding `LIKE 'abc%'` and `starts_with(col, 'abc')` into one range of text
    keys, and the proof that the range holds exactly the matching rows. */
module TextRewrite {
  import opened Text
  import opened Utf8
  import opened PrefixRange
  import opened ScalarKey
  import opened Like

  const BACKSLASH: Option<char> := Some('\\')

  /** `like_prefix`: the literal body of a pattern that is a pure prefix match. */
  function LikePrefix(pattern: string): Option<string> {
    if pattern == "" || pattern[|pattern| - 1] != '%' then None
    else
      var body := pattern[..|pattern| - 1];
      if body == "" || '%' in body || '_' in body || '\\' in body then None else Some(body)
  }

  datatype TextShape = LikePattern(pattern: string) | StartsWith(prefix: string)

  ghost predicate Holds(shape: TextShape, s: string) {
    match shape
    case LikePattern(pattern) => IsLike(pattern, BACKSLASH, s)
    case StartsWith(prefix) => prefix <= s
  }

  /** The half-open key range: no upper key means unbounded. */
  datatype KeyRange = KeyRange(lower: string, upper: Option<string>)

  /** Whether the index walk of a range meets the key of `s`. */
  predicate Walks(r: KeyRange, s: string) {
    && !Less(TextKey(Encode(s)), TextKey(Encode(r.lower)))
    && (r.upper.Some? ==> Less(TextKey(Encode(s)), TextKey(Encode(r.upper.value))))
  }

  /** The prefix arm of `text_filter`; `None` stands for a refusal. */
  function TextFilter(shape: TextShape): Option<KeyRange> {
    var prefix := match shape case LikePattern(p) => LikePrefix(p) case StartsWith(p) => Some(p);
    if prefix.None? || prefix.value == "" || '\0' in prefix.value then None
    else match Successor(prefix.value)
      case Bound(next) => Some(KeyRange(prefix.value, Some(next)))
      case Unbounded => Some(KeyRange(prefix.value, None))
      case NotUtf8 => None
  }

  // ---------------------------------------------------------------- LIKE

  /** A literal run. */
  function Run(body: string): (run: seq<Token>)
    ensures |run| == |body| && forall i :: 0 <= i < |body| ==> run[i] == Ch(body[i])
  {
    seq(|body|, i requires 0 <= i < |body| => Ch(body[i]))
  }

  lemma {:induction false} PlainTokens(body: string, tail: string)
    requires '%' !in body && '_' !in body && '\\' !in body
    requires Tokens(tail, BACKSLASH, Plain).Some?
    ensures Tokens(body + tail, BACKSLASH, Plain) == Some(Run(body) + Tokens(tail, BACKSLASH, Plain).value)
    decreases |body|
  {
    hide Tokens, Run;
    var rest := Tokens(tail, BACKSLASH, Plain).value;
    if body == "" {
      assert body + tail == tail && Run(body) + rest == rest;
    } else {
      var text := body + tail;
      assert text[1..] == body[1..] + tail && text[0] == body[0];
      PlainTokens(body[1..], tail);
      PlainToken(text);
      RunSplits(body, rest);
    }
  }

  lemma RunSplits(body: string, rest: seq<Token>)
    requires body != ""
    ensures [Ch(body[0])] + (Run(body[1..]) + rest) == Run(body) + rest
  {
    hide Run;
    assert [Ch(body[0])] + Run(body[1..]) == Run(body);
  }

  lemma PlainToken(text: string)
    requires text != "" && text[0] != '%' && text[0] != '_' && text[0] != '\\' && Tokens(text[1..], BACKSLASH, Plain).Some?
    ensures Tokens(text, BACKSLASH, Plain) == Some([Ch(text[0])] + Tokens(text[1..], BACKSLASH, Plain).value)
  {
  }

  lemma PercentToken()
    ensures Tokens("%", BACKSLASH, Plain) == Some([Many])
  {
    var p := "%";
    assert p[1..] == "" && Tokens("", BACKSLASH, Plain) == Some([]);
    assert [Many] + [] == [Many];
    assert Tokens(p, BACKSLASH, Plain) == Some([Many] + []);
  }

  /** A pattern `like_prefix` accepts matches exactly the texts its body starts. */
  lemma LikePrefixIsPrefix(pattern: string, s: string)
    requires LikePrefix(pattern).Some?
    ensures IsLike(pattern, BACKSLASH, s) <==> LikePrefix(pattern).value <= s
  {
    var body := LikePrefix(pattern).value;
    assert pattern == body + "%";
    PercentToken();
    PlainTokens(body, "%");
    var run := Run(body);
    MatchesThenEnd(run, s);
    assert Spelled(run) == body;
  }

  // ------------------------------------------------------------ the theorems

  /** The octets of `s` start with those of `prefix` exactly when the index walk
      between the two keys meets `s`. */
  lemma PrefixWalk(prefix: string, s: string)
    requires Successor(prefix) != NotUtf8
    ensures var upper := match Successor(prefix) case Bound(next) => Some(next) case _ => None;
            Walks(KeyRange(prefix, upper), s) <==> prefix <= s
  {
    hide Encode, TextKey, Less;
    PrefixOfOctets(prefix, s);
    PrefixIsRange(Encode(prefix), Encode(s));
    TextKeyOrder(Encode(s), Encode(prefix));
    if Successor(prefix).Bound? { TextKeyOrder(Encode(s), Encode(Successor(prefix).text)); }
  }

  /** A folded text predicate walks exactly the rows it holds for. */
  lemma TextFoldPreservesMeaning(shape: TextShape, s: string)
    requires TextFilter(shape).Some?
    ensures Walks(TextFilter(shape).value, s) <==> Holds(shape, s)
  {
    hide Encode, Decode, SuccessorBytes, IsLike, Walks;
    match shape
    case LikePattern(pattern) =>
      LikePrefixIsPrefix(pattern, s);
      PrefixWalk(LikePrefix(pattern).value, s);
    case StartsWith(prefix) => PrefixWalk(prefix, s);
  }

  /** A prefix is folded if and only if it is not empty, holds no NUL and does
      not end in the octet 0x7F or 0xBF; the range is then always bounded. */
  lemma FoldedIff(prefix: string)
    ensures TextFilter(StartsWith(prefix)).Some? <==>
            && prefix != "" && '\0' !in prefix
            && Encode(prefix) != [] && Encode(prefix)[|Encode(prefix)| - 1] !in {0x7F, 0xBF}
    ensures TextFilter(StartsWith(prefix)).Some? ==> TextFilter(StartsWith(prefix)).value.upper.Some?
  {
    hide Encode, Successor;
    if prefix != "" { NonEmptySuccessor(prefix); }
  }

  lemma NonEmptySuccessor(prefix: string)
    requires prefix != ""
    ensures Encode(prefix) != [] && !Successor(prefix).Unbounded?
    ensures Successor(prefix).Bound? <==> Encode(prefix)[|Encode(prefix)| - 1] !in {0x7F, 0xBF}
  {
    assert Encode(prefix) != [];
    hide Encode, Successor, EncodeChar;
    var front, c := prefix[..|prefix| - 1], prefix[|prefix| - 1];
    assert prefix == front + [c];
    BoundIsTextIff(front, c);
  }

  /** A LIKE is folded if and only if its pattern is a body and one `%` after it,
      the body holding no wildcard and no backslash and folding as a prefix; it
      then folds to the body's own range. */
  lemma LikeFoldedIff(pattern: string)
    ensures TextFilter(LikePattern(pattern)).Some? <==>
            exists body :: IsBody(pattern, body) && TextFilter(StartsWith(body)).Some?
    ensures forall body :: IsBody(pattern, body) ==> TextFilter(LikePattern(pattern)) == TextFilter(StartsWith(body))
  {
    hide Successor;
    if TextFilter(LikePattern(pattern)).Some? { assert IsBody(pattern, pattern[..|pattern| - 1]); }
    forall body | IsBody(pattern, body) ensures LikePrefix(pattern) == Some(body) {
      assert pattern[..|pattern| - 1] == body;
    }
  }

  predicate IsBody(pattern: string, body: string) {
    pattern == body + "%" && body != "" && forall i :: 0 <= i < |body| ==> body[i] !in {'%', '_', '\\'}
  }
}
