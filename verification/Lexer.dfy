/** The tokenizer.  A text is a sequence of octets, each written as the character
    with that code; an octet from 0x80 up is part of some longer character. */
module Lexer {
  import opened Text

  datatype Tok =
    | Word(w: string) | Quoted(w: string) | Str(w: string)
    | Num(spelling: string, exact: Option<int>)
    | Param(n: nat)
    | Star | Comma | Dot | Semicolon | LParen | RParen | LBrace | RBrace | LBracket | RBracket
    | Colon | Cast | Eq | Ne | Lt | Le | Gt | Ge | Plus | Minus | Slash | Percent | Caret
    | Concat | Pipe | Amp | Overlaps | Matches | ContainsOp
    | VecCosine | VecL2 | VecDot | VecL1
    | Arrow | LongArrow | HashArrow | HashLongArrow | BackArrow
    | Tilde | Question | Bang
    | Eof

  datatype Token = Token(tok: Tok, at: nat)

  const MAX_PARAMETER := 65_535

  // --------------------------------------------------------------- spelling

  predicate IsOperator(t: Tok) {
    !t.Word? && !t.Quoted? && !t.Str? && !t.Num? && !t.Param? && !t.Eof?
  }

  /** `Tok::written` for an operator. */
  function Spelling(t: Tok): string
    requires IsOperator(t)
  {
    match t
    case Star => "*" case Comma => "," case Dot => "." case Semicolon => ";"
    case LParen => "(" case RParen => ")" case LBrace => "{" case RBrace => "}"
    case LBracket => "[" case RBracket => "]" case Colon => ":" case Cast => "::"
    case Eq => "=" case Ne => "<>" case Lt => "<" case Le => "<=" case Gt => ">" case Ge => ">="
    case Plus => "+" case Minus => "-" case Slash => "/" case Percent => "%" case Caret => "^"
    case Concat => "||" case Pipe => "|" case Amp => "&" case Overlaps => "&&"
    case Matches => "@@" case ContainsOp => "@>"
    case VecCosine => "<=>" case VecL2 => "<->" case VecDot => "<#>" case VecL1 => "<+>"
    case Arrow => "->" case LongArrow => "->>" case HashArrow => "#>" case HashLongArrow => "#>>"
    case BackArrow => "<-" case Tilde => "~" case Question => "?" case Bang => "!"
  }

  /** `Tok::written`; a literal is not re-quoted. */
  function Written(t: Tok): string {
    match t
    case Word(w) => w
    case Quoted(w) => "\"" + w + "\""
    case Str(w) => "'" + w + "'"
    case Num(spelling, _) => spelling
    case Param(n) => "$" + Decimal(n)
    case Eof => "end of statement"
    case _ => Spelling(t)
  }

  // ------------------------------------------------------ classes of octets

  /** `is_ascii_whitespace`: vertical tab is not one. */
  predicate IsBlank(c: char) { c == ' ' || c == '\t' || c == '\n' || c as int == 12 || c == '\r' }

  predicate StartsWord(c: char) { c == '_' || IsAlpha(c) || c as int >= 0x80 }

  predicate InWord(c: char) { StartsWord(c) || IsDigit(c) }

  // --------------------------------------------------------- blanks, comments

  /** Up to the newline that ends a line comment, or the end. */
  function LineLength(s: string): (n: nat)
    ensures n <= |s|
  {
    if s == "" || s[0] == '\n' then 0 else 1 + LineLength(s[1..])
  }

  /** Up to the first star-slash. */
  function CloseAt(s: string): (r: Option<nat>)
    ensures r.Some? ==> r.value + 2 <= |s| && s[r.value] == '*' && s[r.value + 1] == '/'
  {
    if |s| < 2 then None
    else if s[0] == '*' && s[1] == '/' then Some(0)
    else
      var r := CloseAt(s[1..]);
      if r.None? then None else Some(r.value + 1)
  }

  predicate StartsLine(s: string) { |s| >= 2 && s[0] == '-' && s[1] == '-' }

  predicate StartsBlock(s: string) { |s| >= 2 && s[0] == '/' && s[1] == '*' }

  /** How much white space and comment a text starts with; `None` when a block
      comment is not closed. */
  function BlankLength(s: string): (r: Option<nat>)
    ensures r.Some? ==> r.value <= |s|
    decreases |s|
  {
    if s == "" then Some(0)
    else if IsBlank(s[0]) then Past(1, BlankLength(s[1..]))
    else if StartsLine(s) then Past(LineLength(s), BlankLength(s[LineLength(s)..]))
    else if StartsBlock(s) then
      var close := CloseAt(s[2..]);
      if close.None? then None else Past(close.value + 4, BlankLength(s[close.value + 4..]))
    else Some(0)
  }

  function Past(n: nat, r: Option<nat>): Option<nat> {
    if r.None? then None else Some(n + r.value)
  }

  // ------------------------------------------------------------ single tokens

  /** The rest of a quoted text: its value, doubled quotes collapsed, and how many
      octets it took, the closing quote included. */
  function ReadQuoted(s: string, q: char): (r: Option<(string, nat)>)
    ensures r.Some? ==> 0 < r.value.1 <= |s|
    decreases |s|
  {
    if s == "" then None
    else if s[0] != q then
      var r := ReadQuoted(s[1..], q);
      if r.None? then None else Some(([s[0]] + r.value.0, 1 + r.value.1))
    else if |s| >= 2 && s[1] == q then
      var r := ReadQuoted(s[2..], q);
      if r.None? then None else Some(([q] + r.value.0, 2 + r.value.1))
    else Some(("", 1))
  }

  function WordRun(s: string): (n: nat)
    ensures n <= |s|
  {
    if s != "" && InWord(s[0]) then 1 + WordRun(s[1..]) else 0
  }

  /** Where a numeric literal's fraction ends, when it has one. */
  function FractionEnd(s: string, j: nat): (n: nat)
    requires j <= |s|
    ensures j <= n <= |s|
  {
    if j < |s| && s[j] == '.' then j + 1 + DigitRun(s[j + 1..]) else j
  }

  /** Where its exponent ends, when it has one. */
  function ExponentEnd(s: string, j: nat): (n: nat)
    requires j <= |s|
    ensures j <= n <= |s|
  {
    if j < |s| && (s[j] == 'e' || s[j] == 'E') then
      var k := if j + 1 < |s| && (s[j + 1] == '+' || s[j + 1] == '-') then j + 2 else j + 1;
      if k < |s| && IsDigit(s[k]) then k + DigitRun(s[k..]) else j
    else j
  }

  /** `number`: the literal's text, and its integer value when it has neither
      fraction nor exponent and fits. */
  function ReadNumber(s: string): (Tok, nat)
    requires s != ""
  {
    var digits := DigitRun(s);
    var end := ExponentEnd(s, FractionEnd(s, digits));
    (Num(s[..end], if end == digits then ParseInt(s[..end]) else None), end)
  }

  /** The operator a text starts with: three octets before two, two before one. */
  function ReadOperator(s: string): Option<(Tok, nat)>
    requires s != ""
  {
    var three := if |s| >= 3 then ReadTriple(s[0], s[1], s[2]) else None;
    if three.Some? then Some((three.value, 3))
    else
      var two := if |s| >= 2 then ReadPair(s[0], s[1]) else None;
      if two.Some? then Some((two.value, 2))
      else
        var one := ReadSingle(s[0]);
        if one.Some? then Some((one.value, 1)) else None
  }

  function ReadTriple(c: char, two: char, three: char): Option<Tok> {
    if c == '<' && two == '=' && three == '>' then Some(VecCosine)
    else if c == '<' && two == '-' && three == '>' then Some(VecL2)
    else if c == '<' && two == '#' && three == '>' then Some(VecDot)
    else if c == '<' && two == '+' && three == '>' then Some(VecL1)
    else if c == '-' && two == '>' && three == '>' then Some(LongArrow)
    else if c == '#' && two == '>' && three == '>' then Some(HashLongArrow)
    else None
  }

  function ReadPair(c: char, two: char): Option<Tok> {
    if c == '<' && two == '>' then Some(Ne)
    else if c == '<' && two == '=' then Some(Le)
    else if c == '<' && two == '-' then Some(BackArrow)
    else if c == '>' && two == '=' then Some(Ge)
    else if c == '!' && two == '=' then Some(Ne)
    else if c == '-' && two == '>' then Some(Arrow)
    else if c == '#' && two == '>' then Some(HashArrow)
    else if c == ':' && two == ':' then Some(Cast)
    else if c == '|' && two == '|' then Some(Concat)
    else if c == '&' && two == '&' then Some(Overlaps)
    else if c == '@' && two == '@' then Some(Matches)
    else if c == '@' && two == '>' then Some(ContainsOp)
    else None
  }

  function ReadSingle(c: char): Option<Tok> {
    match c
    case '*' => Some(Star) case ',' => Some(Comma) case '.' => Some(Dot)
    case ';' => Some(Semicolon) case '(' => Some(LParen) case ')' => Some(RParen)
    case '{' => Some(LBrace) case '}' => Some(RBrace) case '[' => Some(LBracket)
    case ']' => Some(RBracket) case ':' => Some(Colon) case '=' => Some(Eq)
    case '<' => Some(Lt) case '>' => Some(Gt) case '+' => Some(Plus)
    case '-' => Some(Minus) case '/' => Some(Slash) case '%' => Some(Percent)
    case '^' => Some(Caret) case '|' => Some(Pipe) case '&' => Some(Amp)
    case '~' => Some(Tilde) case '?' => Some(Question) case '!' => Some(Bang)
    case _ => None
  }

  /** `$n`, from 1 to 65535. */
  function ReadParam(s: string): Option<(Tok, nat)>
    requires s != "" && s[0] == '$'
  {
    var digits := DigitRun(s[1..]);
    var n := Value(s[1..1 + digits]);
    if digits == 0 || n > MAX_PARAMETER || n <= 0 then None else Some((Param(n), 1 + digits))
  }

  /** The token a text starts with and its width. */
  function ReadToken(s: string): (r: Option<(Tok, nat)>)
    requires s != ""
    ensures r.Some? ==> 0 < r.value.1 <= |s|
  {
    var c := s[0];
    if c == '\'' then
      var r := ReadQuoted(s[1..], '\'');
      if r.None? then None else Some((Str(r.value.0), 1 + r.value.1))
    else if c == '"' then
      var r := ReadQuoted(s[1..], '"');
      if r.None? then None else Some((Quoted(r.value.0), 1 + r.value.1))
    else if c == '$' then ReadParam(s)
    else if IsDigit(c) || (c == '.' && |s| > 1 && IsDigit(s[1])) then Some(ReadNumber(s))
    else if StartsWord(c) then Some((Word(s[..WordRun(s)]), WordRun(s)))
    else ReadOperator(s)
  }

  /** `tokenize` on the text from offset `at` on; `None` stands for an error. */
  function Lex(s: string, at: nat): Option<seq<Token>>
    decreases |s|
  {
    var blank := BlankLength(s);
    if blank.None? then None
    else
      var here := s[blank.value..];
      if here == "" then Some([Token(Eof, at + blank.value)])
      else
        var r := ReadToken(here);
        if r.None? then None
        else
          var rest := Lex(here[r.value.1..], at + blank.value + r.value.1);
          if rest.None? then None
          else Some([Token(r.value.0, at + blank.value)] + rest.value)
  }
}
