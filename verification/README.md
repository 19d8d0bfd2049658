# sekejap: date and text rewrites, lexer, codecs and benchmark protocols, verified

sekejap answers a date or text function in a `WHERE` clause by folding it, when the
statement is prepared, into ONE range over an index's keys. A wrong fold is silent: the
index walk and the residual filter use the same bound. This project models that folding
from the calendar arithmetic up to the range the index walks, together with the lexer
and statement guard in front of it, the pgcrypto text codecs, and the four algorithms of
the 50k benchmark whose answers everything else is compared with (a crash-resumable
backfill, two k-nearest searches and a concurrent heap counter).

| module | what it holds |
|---|---|
| `Calendar`, `TimeUnits` | day numbers and civil dates, truncation, extraction, where i64 ends |
| `TimeRewrite` | `time_filter`: a time predicate folded into one range over stored microseconds |
| `WrappedTime` | the same fold in a build that wraps around instead of checking for overflow |
| `Timestamp`, `TimestampGrammar`, `Interval`, `Text`, `Trimming` | literals in, literals out, and exactly which texts are literals |
| `Utf8`, `PrefixRange`, `ScalarKey`, `Like`, `TextRewrite` | prefixes, key order, LIKE, and `text_filter`'s prefix range |
| `Lexer`, `LexerLaws`, `Tokenizer`, `LexerOutcome`, `StatementGuard` | what a token is, its laws, the scanning loops, when a text lexes, the first-word guard |
| `Codec`, `Base64Text`, `Crypt`, `CryptLaws` | sextets, base64, hex, bcrypt's alphabet, `crypt` and `gen_salt` |
| `Backfill` | `provision_functions` with kills between any two writes |
| `TopK`, `GridNearest`, `RingLadder` | two fast k-nearest searches against brute force |
| `HeapCounter` | interleavings of the counting allocator's atomic steps |
| `RangeTable` | the code-point range table |

Loops of the source are methods with invariants, proved equal to a function of their
input; the laws are lemmas about those functions. The backfill is a class whose `disk`
is what a kill leaves and whose `life` is how many durable writes a process still makes.
i64 steps are exact integers. `TimeUnits` and `TimeRewrite` answer `Overflows` where the
exact value leaves i64, which is where a build with overflow checks panics; the release
profile (`Cargo.toml`) sets no such checks, and `WrappedTime` is the fold as that build
computes it, every step wrapped. `dafny verify dfyconfig.toml` checks everything.

## What the code does and does not keep

Each of these is a theorem with its exact condition.

- The comment on `year_start` says saturating is not a clamp of the answer. It is, for
  one instant: a folded `EXTRACT` answers `i64::MAX` microseconds wrongly precisely when
  the cut lies beyond i64 (year 294247, epoch second 9223372036854). Every other stored
  instant is answered exactly. `TimeRewrite.FoldIsExactIff`.
- `date_trunc` leaves i64 at exactly the instants whose enclosing unit, or whose day,
  begins below it (`floor_div_rem` multiplies the floored day back, even for an hour).
  A build with overflow checks panics there: `TimeUnits.WholeUnit`.
- A build without them answers, and for a literal whose year or month begins below i64,
  or whose unit ends above it, most comparisons come out wrong:
  `date_trunc('year', t) >= -9223372036854775808` answers only the rows of year 294247
  (`WrappedTime.WrapLosesRows`). Every other literal folds as in the checked build, a day
  or finer unit at i64::MIN wraps twice and comes back right, and per operator `=` off a
  boundary and `<` and `>=` on one survive: `WrappedTime.WrappedIsExactIff` states
  exactly which statements do.
- A printed timestamp reads back if and only if its year prints in four characters,
  -999 to 9999. `Timestamp.TimestampRoundTrip`.
- The parser accepts more than it documents: each field is read as an integer of its own,
  so `2001-+1-+2` is 2 January 2001. The accepted texts are stated exactly.
  `TimestampGrammar.AcceptedIff`.
- A NUL in a prefix is refused for want of a successor in the escaped key order, but the
  escaped keys order exactly as the octets do, zeros included: the refusal is stricter
  than the key order asks. `ScalarKey.TextKeyOrder`.
- A backfill batch can exceed `BATCH`: the `continue` over filled rows skips the test.
  `Backfill.Bench.ScanBatch`, `Backfill.BatchOverruns`.
- `heap_mark` is exact only when the adds in flight settle to the mark; two ways it is
  not are given. `HeapCounter.PeakIsExactIff`, `HeapCounter.UnquietMarks`.
- `Tok::written` does not double quotes. `LexerLaws.WrittenLiteralReadsBackIff`.
- `commits_on_its_own` says yes to a first word such as `CREATE_X`; what it answers on
  every statement that lexes is stated exactly. `StatementGuard.CommitsIff`.

## Model

| member | source | states |
|---|---|---|
| `Calendar.YearOfEraBrackets` | lang/src/functions.rs:122-133 | the era-year formula names the one March-based year of the 400 whose days hold the given day of the era |
| `Calendar.MonthBrackets` | lang/src/functions.rs:122-133 | the 153-day month formula names the March-based month whose days hold the given day of the year |
| `Calendar.DaysAfterCivil` | lang/src/functions.rs:111-133 | every integer day number converts to a Gregorian date that exists, and that date converts back to the day number |
| `Calendar.CivilAfterDays` | lang/src/functions.rs:111-133 | every date that exists converts to a day number and back to itself |
| `Calendar.DaysMonotone` | lang/src/functions.rs:111-119 | an earlier existing date has a strictly smaller day number |
| `Calendar.CivilMonotone` | lang/src/functions.rs:122-133 | a smaller day number is a strictly earlier date |
| `Calendar.RoundTripTestsExistence` | lang/src/functions.rs:380-385 | for a month 1..12 and day 1..31 the parser's round-trip test holds exactly when the month has that day |
| `Calendar.DaysOfNextDay` | lang/src/functions.rs:111-119 | the calendar's next date has the next day number, over month, year and century ends |
| `Calendar.CivilSteps` | lang/src/functions.rs:122-133 | consecutive day numbers are consecutive calendar dates |
| `Calendar.CivilFromDaysIsTheCalendar` | lang/src/functions.rs:106-133 | the conversion is the only map of the integers that sends 0 to 1970-01-01 and steps date by date |
| `TimeUnits.CivilRoundTrip` | lang/src/functions.rs:142-162 | every instant reads as an existing date and an in-range time of day that give the instant back |
| `TimeUnits.MicrosRoundTrip` | lang/src/functions.rs:142-162 | every existing date and in-range time of day survives the trip through microseconds |
| `TimeUnits.MicrosCheckedIs` | lang/src/functions.rs:156-162 | i64 arithmetic gives the same number exactly when the day's start and the total fit |
| `WrappedTime.MicrosWrappedIs` | lang/src/functions.rs:156-162 | wrapping arithmetic gives the same number wrapped to 64 bits |
| `TimeUnits.WrappedRemainderIsExact` | lang/src/functions.rs:137-140 | for every i64 the remainder is exact under wrap-around, although the product leaves i64 in the day at i64::MIN |
| `TimeUnits.IndexIsRange` | lang/src/functions.rs:83-89 | an instant lies in the k-th unit exactly when it lies between the unit's start and the next one's, for six units |
| `TimeUnits.DateTruncExact` | lang/src/functions.rs:165-204 | truncation is the enclosing unit's start from the first whole unit on and overflows at exactly the instants below |
| `TimeUnits.NextUnitExact` | lang/src/functions.rs:207-246 | on a unit's start the next unit's start is answered whenever it fits i64, and overflow otherwise |
| `TimeUnits.WholeUnit` | lang/src/functions.rs:165-246 | truncating and stepping answers without overflow exactly on the instants whose unit lies wholly in i64, and then start <= t < end |
| `TimeUnits.TruncationIsOneRange` | lang/src/functions.rs:83-89 | for any truncated v, truncating t gives v exactly when v <= t < next_unit(v) |
| `TimeUnits.TruncationIsAClosure` | lang/src/functions.rs:165-204 | truncation is idempotent and monotone |
| `TimeUnits.TruncationAbsorbsFiner` | lang/src/functions.rs:165-204 | truncating first to any finer unit changes nothing |
| `TimeUnits.CoarserIsTotal` | lang/src/functions.rs:83-89 | of two different truncation units one is the coarser |
| `TimeUnits.ExtractRecomposes` | lang/src/functions.rs:252-265 | year, month, day, hour, minute and second recompose to the start of the epoch second EXTRACT names |
| `TimeUnits.WeekdaysFollow` | lang/src/functions.rs:252-265 | 1970-01-01 is a Thursday, a day has one weekday, and weekdays follow each other cyclically from Sunday 0 |
| `TimeRewrite.TruncCut` | lang/src/compile/functions.rs:122-141 | comparing a truncated instant with any literal is one cut, at the literal on a boundary and at the next boundary otherwise |
| `TimeRewrite.TruncRangeExact` | lang/src/compile/functions.rs:226-238 | where no step leaves i64, the range a `date_trunc` comparison folds to admits exactly the instants it holds for, every operator, on and off boundary (the other literals: `WrappedTime.TruncRangeWrappedIs`) |
| `TimeRewrite.YearStartSaturates` | lang/src/compile/functions.rs:143-171 | the bounded computation equals the exact start of the year held inside i64, for every integer year |
| `TimeRewrite.YearFits` | lang/src/compile/functions.rs:143-171 | exactly the years -290307 to 294247 begin inside i64 |
| `TimeRewrite.ExtractWindowSaturates` | lang/src/compile/functions.rs:173-193 | a YEAR or EPOCH window is the exact unit's two boundaries, each held inside i64 |
| `TimeRewrite.ExtractRangeExact` | lang/src/compile/functions.rs:210-214 | an EXTRACT comparison's range is exact on every stored instant but i64::MAX, wrong there precisely when the cut does not fit |
| `TimeRewrite.ExtractBetweenExact` | lang/src/compile/functions.rs:215-225 | the same for EXTRACT BETWEEN, crossed bounds included |
| `TimeRewrite.TruncBetweenExact` | lang/src/compile/functions.rs:239-260 | where no step leaves i64, the range of a `date_trunc` BETWEEN admits exactly the instants whose truncation lies between the literals (the other literals: `WrappedTime.BetweenSurvivesIff`) |
| `TimeRewrite.TimeValueExact` | lang/src/compile/functions.rs:23-39 | a folded clock value is the exact clock, day-truncated or not, plus its offset; it is refused exactly when that sum leaves i64 and overflows exactly when the clock's day begins below i64 |
| `TimeRewrite.FoldPreservesMeaning` | lang/src/compile/functions.rs:195-297 | for all seven predicate shapes, every clock and every stored instant, a range folded without overflow admits the instant exactly when the predicate holds, but for i64::MAX when an EXTRACT cut does not fit |
| `TimeRewrite.FoldIsExactIff` | lang/src/compile/functions.rs:143-193 | a range folded without overflow is exact on all stored instants if and only if the literal passes a check of its value alone |
| `TimeRewrite.LastInstantIsMissed` | lang/src/compile/functions.rs:143-193 | the failing input: `EXTRACT(YEAR FROM t) = 294247` holds of i64::MAX and its range leaves it out |
| `TimeRewrite.AnsweredIff` | lang/src/compile/functions.rs:209-286 | a build with overflow checks folds a predicate, rather than refusing or panicking, if and only if it is a one-range shape whose literals' units lie inside i64 |
| `TimeRewrite.OutcomeIs` | lang/src/compile/functions.rs:195-297 | folded, refused or panicking, each with its exact condition on the shape: `<>`, a repeating field, a unit that does not truncate or a clock out of i64 is refused, a literal or clock whose unit leaves i64 panics, and a panic comes first where the civil date is worked out first |
| `WrappedTime.TruncWrappedIs` | lang/src/functions.rs:165-204 | without overflow checks truncation is the exact truncation wrapped to 64 bits, for every i64 |
| `WrappedTime.NextWrappedIs` | lang/src/functions.rs:207-246 | without overflow checks stepping on is the exact next calendar boundary, or the fixed width added, wrapped |
| `WrappedTime.EdgeIs` | lang/src/functions.rs:165-246 | truncating and stepping without overflow checks recognises a boundary literal exactly and cuts at a stated place: the true boundary, the same 2^64 lower, or 1 January 294247 |
| `WrappedTime.TruncRangeWrappedIs` | lang/src/compile/functions.rs:226-238 | for every literal, operator and stored instant the wrapped range admits the instant exactly when the comparison holds, except on a stated set of instants |
| `WrappedTime.TruncSurvivesIff` | lang/src/compile/functions.rs:226-238 | that set is empty if and only if the literal's unit stays inside i64, or the operator is one of those that survive |
| `WrappedTime.BetweenSurvivesIff` | lang/src/compile/functions.rs:239-260 | a wrapped BETWEEN holds the rows the exact one does if and only if a check of its two literals passes |
| `WrappedTime.TimeValueWrappedIs` | lang/src/compile/functions.rs:23-39 | a clock whose day begins below i64 folds 2^64 too high or is refused; every other clock value is exact |
| `WrappedTime.WrappedAnsweredIff` | lang/src/compile/functions.rs:209-286 | without overflow checks a predicate is folded if and only if it is a one-range shape and the checked clock addition fits, whatever the size of its literals |
| `WrappedTime.WrappedNeverPanics` | lang/src/compile/functions.rs:209-286 | without overflow checks every statement that is not folded is refused |
| `WrappedTime.WrappedAgrees` | lang/src/compile/functions.rs:209-286 | wherever the checked fold answers the wrapped fold is the same range |
| `WrappedTime.WrappedIsExactIff` | lang/src/compile/functions.rs:195-297 | for all seven shapes a wrapped fold is exact on every stored instant if and only if a condition on its literals holds |
| `WrappedTime.WrapLosesRows` | lang/src/compile/functions.rs:226-238 | the failing input: year-truncated `>= i64::MIN` folds to the rows from 1 January 294247 and loses the rest |
| `TimeRewrite.YearRangeByHand` | bench/src/bin/battle50k.rs:1734-1747 | the benchmark's own year range holds exactly the instants EXTRACT(YEAR) names, for every year |
| `TimeRewrite.MonthRangeByHand` | bench/src/bin/battle50k.rs:1819-1835 | BETWEEN January and June folds to the benchmark's [1 January, 1 July), for every year whose ends fit |
| `Timestamp.ScaleFraction` | lang/src/functions.rs:336-345 | the two scaling loops give the value of the fraction's first six digits, zeros standing in for those not written |
| `Timestamp.FractionIsSixDigits` | lang/src/functions.rs:336-345 | short fractions are padded and nanosecond digits dropped, for every fraction of 1 to 9 digits |
| `Timestamp.FractionRoundsDown` | lang/src/functions.rs:336-345 | a fraction is its part of a second rounded down to the microsecond |
| `Timestamp.CountDigits` | lang/src/functions.rs:328-332 | the length of the run of digits |
| `Timestamp.TakeClock` | lang/src/functions.rs:310-349 | the clock part read by shrinking `rest` is the specified reading, errors included |
| `Timestamp.ReadTimestamp` | lang/src/functions.rs:283-392 | the whole parser, on every text, is the specified reading |
| `Timestamp.ParseReadsEveryLiteral` | lang/src/functions.rs:267-392 | every documented form (date, clock, seconds, fraction of 1 to 9 digits, each zone spelling) reads to the instant it names |
| `Timestamp.DateReadsIffItExists` | lang/src/functions.rs:291-303 | any two-digit month and day after a year reads to that midnight when the date exists and is refused when not |
| `Timestamp.AcceptedIsAnInstant` | lang/src/functions.rs:374-392 | whatever is accepted names an existing date and an in-range clock less a bounded offset, without leaving i64 |
| `Timestamp.LongYearNeverReads` | lang/src/functions.rs:291-298 | nothing the printer writes after a year outside -999..9999 makes a text that is accepted |
| `Timestamp.FormatSpells` | lang/src/functions.rs:394-414 | the printed text place by place (section 5.6 of RFC 3339): year in four characters or as many as it needs, `-`, month, `-`, day, `T`, clock, six digits of fraction exactly when there is one, `Z`; the printed date is its beginning |
| `Timestamp.TimestampRoundTrip` | lang/src/functions.rs:394-408 | a printed timestamp reads back to the same microsecond if and only if its year is -999..9999, and is refused otherwise |
| `Timestamp.DateRoundTrip` | lang/src/functions.rs:410-414 | a printed date reads back to the start of the instant's day if and only if its year is -999..9999, and is refused otherwise |
| `TimestampGrammar.AcceptedIff` | lang/src/functions.rs:283-392 | a text reads as an instant if and only if it is white space around a spelling of that instant: fixed-width fields, each with a sign of its own or none, a clock, a fraction of 1 to 9 digits worth its first six, and a zone |
| `TimestampGrammar.SignedFieldsAreAccepted` | lang/src/functions.rs:294-300 | a signed month and day are read, beyond the documented forms |
| `Interval.FoldInterval` | lang/src/functions.rs:445-509 | the loop terminates on every text and answers the checked total of its terms, or an error |
| `Interval.IntervalIsExactSum` | lang/src/functions.rs:436-509 | an interval is accepted if and only if it is a non-empty list of fixed-width terms no running total of which leaves i64, and is then their exact sum |
| `Interval.UnitScaleIff` | lang/src/functions.rs:471-494 | the 24 unit names and their widths in microseconds, and no others |
| `Interval.ReadTermIff` | lang/src/functions.rs:453-503 | a term is exactly a signed or unsigned i64, white space or none, and a unit in any case with no letter after it |
| `Interval.TermsOfConcat` | lang/src/functions.rs:453-504 | the terms of two separated texts are the terms of the first and then of the second |
| `Text.ParseIntIff` | lang/src/functions.rs:465-467 | an integer is digits with one sign or none, worth an i64, exactly |
| `Interval.IntervalsAdd` | lang/src/functions.rs:445-509 | two accepted intervals joined by a space give the sum of their values, or an error exactly when a running total leaves i64 |
| `PrefixRange.FindSuccessor` | lang/src/functions.rs:676-688 | the popping loop gives the specified successor: bound, unbounded or not UTF-8 |
| `PrefixRange.SuccessorExists` | lang/src/functions.rs:641-657 | there is no successor exactly when the octets are empty or all 0xFF |
| `PrefixRange.PrefixIsRange` | lang/src/functions.rs:659-666 | octets start with p exactly when they lie in [p, successor(p)), unbounded when there is none |
| `PrefixRange.SuccessorIsLeast` | lang/src/functions.rs:659-660 | nothing smaller bounds everything the prefix starts |
| `PrefixRange.BoundIsTextIff` | lang/src/functions.rs:668-688 | a non-empty text's bound is text if and only if its last octet is neither 0x7F nor 0xBF; it is then the text with its last character raised, and never a wider bound |
| `Utf8.DecodeOfEncode` | lang/src/functions.rs:681-684 | strict UTF-8 (section 4 of RFC 3629) decodes every encoding to its text |
| `Utf8.PrefixOfOctets` | lang/src/functions.rs:662-666 | a text starts with a text exactly when its octets do |
| `ScalarKey.EncodeText` | core/engine/src/store/scalar_key.rs:71-85 | the escaping loop writes tag, escaped octets and two zeros, or refuses past 1024 octets |
| `ScalarKey.TextKeyRoundTrip` | core/engine/src/store/scalar_key.rs:201-225 | a text key decodes to its text and its own width, whatever entity id follows it |
| `ScalarKey.TextKeyOrder` | core/engine/src/store/scalar_key.rs:71-85 | keys compare exactly as the texts' octets, embedded zeros included |
| `ScalarKey.IntKeyOrder` | core/engine/src/store/scalar_key.rs:56-61 | integer keys compare exactly as the integers across the sign |
| `ScalarKey.IntKeyRoundTrip` | core/engine/src/store/scalar_key.rs:182-189 | an integer key decodes to its integer and its own width, whatever entity id follows it |
| `Like.CompilePattern` | core/engine/src/query/like.rs:61-99 | the compiling loop gives the specified tokens, characters lower-cased for ILIKE, or an error |
| `Like.CompileKeepsMeaning` | core/engine/src/query/like.rs:66-88 | merging adjacent `%` keeps the pattern's meaning on every text, for LIKE and ILIKE, and a pattern compiles exactly when it does not end in a bare escape |
| `Like.ShapeIsExact` | core/engine/src/query/like.rs:156-174 | each fast shape (any, exact, prefix, suffix, contains, general) matches exactly what its tokens match |
| `Like.Wildcard` | core/engine/src/query/like.rs:176-208 | the backtracking walk that remembers only the last `%` answers exactly the declarative meaning |
| `Like.RowCheckIsExact` | core/engine/src/query/like.rs:123-135 | compile, pick a shape, answer: exactly what the pattern says, for LIKE and for ILIKE on the lower-cased text |
| `Like.FoldText` | core/engine/src/query/like.rs:101-121 | the text handed on is the whole text lower-cased for ILIKE, whether by the octet loop over ASCII or by the standard library |
| `Like.LikeReads` | core/engine/src/query/like.rs:66-88 | LIKE character by character: `%` any run, `_` one character, any other itself |
| `Like.EscapeReads` | core/engine/src/query/like.rs:69-77 | an escape makes the next character literal, and one at the end matches nothing |
| `Like.IlikeReads` | core/engine/src/query/like.rs:138-144 | a character of an ILIKE pattern asks for all it lower-cases to |
| `TextRewrite.LikePrefixIsPrefix` | lang/src/functions.rs:690-702 | when a pattern has a literal prefix body, LIKE holds exactly of the texts that start with it |
| `TextRewrite.PrefixWalk` | lang/src/compile/functions.rs:423-441 | the walk between the two encoded keys meets exactly the texts that start with the prefix |
| `TextRewrite.TextFoldPreservesMeaning` | lang/src/compile/functions.rs:398-442 | a folded LIKE or starts_with walks exactly the rows it holds for |
| `TextRewrite.FoldedIff` | lang/src/compile/functions.rs:413-437 | a prefix is folded if and only if it is non-empty, holds no NUL and does not end in 0x7F or 0xBF |
| `TextRewrite.LikeFoldedIff` | lang/src/compile/functions.rs:398-412 | a LIKE is folded if and only if its pattern is a body and one `%`, the body free of wildcards and backslashes and folding as a prefix, and then as that prefix |
| `LexerLaws.BlankIsGap` | lang/src/lexer.rs:182-210 | what the scan passes between tokens is white space and whole comments only |
| `LexerLaws.TokenSpells` | lang/src/lexer.rs:211-371 | every token is spelled by the octets it took: quotes doubled, numbers by digits, fraction and exponent with their exact i64 value whenever they have one, operators by their spelling |
| `LexerLaws.LexLaysOut` | lang/src/lexer.rs:178-379 | a text that lexes is exactly gap, token, gap, ..., Eof at its end |
| `LexerLaws.OffsetsRise` | lang/src/lexer.rs:372-378 | offsets rise strictly and the last token is Eof at the text's length |
| `LexerLaws.OperatorIsLongest` | lang/src/lexer.rs:315-369 | the operator read is the longest operator the text starts with |
| `LexerLaws.TokenIsLongest` | lang/src/lexer.rs:211-417 | maximal munch for every kind of token: no longer beginning of the text spells a token of any kind |
| `LexerLaws.PrintedTokensReadBack` | lang/src/lexer.rs:86-138 | any sequence of operators, words, numbers, parameters and quote-free literals printed with spaces lexes back to itself |
| `LexerLaws.WrittenLiteralReadsBackIff` | lang/src/lexer.rs:91-92 | a printed string or quoted identifier reads back as itself if and only if it holds no quote of its kind |
| `LexerLaws.SqlLiteralReads` | bench/src/bin/battle50k.rs:3113-3118 | inside any statement a quoted value is one token holding exactly the value, if and only if no quote follows |
| `LexerLaws.SqlLiteralAlone` | bench/src/bin/battle50k.rs:3116-3118 | lexing a quoted value gives the value back, for every value |
| `Tokenizer.SkipLine` | lang/src/lexer.rs:191-196 | the line-comment loop stops at the newline or the end |
| `Tokenizer.FindClose` | lang/src/lexer.rs:197-210 | the block-comment loop finds the first star-slash, or reports none |
| `Tokenizer.ReadLiteral` | lang/src/lexer.rs:213-272 | the quoted-text loop copies whole characters and collapses doubled quotes |
| `Tokenizer.ScanNumber` | lang/src/lexer.rs:381-417 | digits, fraction and exponent are scanned maximally, and a plain integer keeps its exact i64 value |
| `Tokenizer.ScanToken` | lang/src/lexer.rs:211-371 | the dispatch reads the specified token and width, or an error (which tokens those are: `LexerOutcome.ReadTokenIff`) |
| `Tokenizer.Tokenize` | lang/src/lexer.rs:178-379 | the whole loop gives the specified tokens with their offsets, or an error (when: `LexerOutcome.LexFailsIff`) |
| `LexerOutcome.ReadTokenIff` | lang/src/lexer.rs:211-417 | a text begins with a token if and only if its octets spell it, it ends there, and nothing longer spells any token |
| `LexerOutcome.NoTokenIff` | lang/src/lexer.rs:211-417 | no token begins a text if and only if a quote is not closed, a parameter is missing or out of range, or an octet is foreign |
| `LexerOutcome.LexFailsIff` | lang/src/lexer.rs:178-379 | a text fails to lex if and only if the scan, step by step over blanks, comments and longest tokens, comes by one of those or an unclosed comment |
| `LexerOutcome.OctetClasses` | lang/src/lexer.rs:184-305 | blanks, digits and the octets of words, by octet range |
| `LexerOutcome.CommentStarts` | lang/src/lexer.rs:188-197 | a comment begins with `--` or `/*`, at the very end of the text too |
| `Tokenizer.HighestParameter` | lang/src/lexer.rs:159-174 | the largest `$n` among the tokens, reached when positive, 0 when there is none or the text does not lex |
| `StatementGuard.AfterLeadingComments` | lang/src/lexer.rs:440-464 | the guard's own loop stops where the specified leading scan does, unterminated comments included |
| `StatementGuard.LeadingIs` | lang/src/lexer.rs:434-464 | on every text, lexing or not: what is passed is white space and closed comments, and what is left begins with neither, an unclosed comment included |
| `StatementGuard.GuardSeesFirstToken` | lang/src/lexer.rs:434-464 | on every statement that lexes the guard starts at the first token's offset |
| `StatementGuard.CommitsIff` | lang/src/lexer.rs:424-432 | on every statement that lexes the guard says yes if and only if the first token is a word whose leading letters are CREATE, DROP, ALTER, REINDEX or TRUNCATE in any case |
| `StatementGuard.EveryDdlIsSeen` | lang/src/lexer.rs:419-432 | no statement whose first token is CREATE, DROP, ALTER, REINDEX or TRUNCATE, in any case, escapes the guard |
| `StatementGuard.GuardOverApproximates` | lang/src/lexer.rs:424-432 | a first word that only begins with a DDL word is guarded too |
| `Codec.Feed` | lang/src/pgcrypto.rs:272-278 | one accumulator step keeps `bits` below 2^count, emits at most one octet and conserves the bit count |
| `Codec.UnpackOfPack` | lang/src/pgcrypto.rs:372-400 | unpacking the sextets of any octets gives the octets |
| `Codec.UnpackLength` | lang/src/pgcrypto.rs:385-400 | n sextets complete exactly 6n/8 octets, rounded down |
| `Codec.ChunkIsBigEndian` | lang/src/pgcrypto.rs:225-230 | three octets and their four sextets are the same 24-bit number, high end first |
| `Codec.AlphabetIsWritten` | lang/src/pgcrypto.rs:211-297 | at each of the 64 places the base64, crypt and bcrypt alphabets hold the character their constants write there |
| `Codec.EncodeBcrypt` | lang/src/pgcrypto.rs:372-383 | the chunk loop spells the packed sextets in bcrypt's alphabet, no padding |
| `Codec.DecodeBcrypt` | lang/src/pgcrypto.rs:385-400 | the accumulator loop unpacks the characters' places, or reports a foreign character |
| `Codec.BcryptRoundTrip` | lang/src/pgcrypto.rs:371-400 | decoding an encoding gives every octet string back, and sixteen octets take 22 characters |
| `Codec.BcryptSaltIsSixteen` | lang/src/pgcrypto.rs:352-357 | 22 characters decode if and only if all are in the alphabet, and then to exactly 16 octets |
| `Base64Text.Encode` | lang/src/pgcrypto.rs:216-238 | the loop with its line counter gives the padded groups broken into 76-character lines |
| `Base64Text.Decode` | lang/src/pgcrypto.rs:258-281 | the accumulator loop is the specified reading: white space passed, padding ends, a foreign character is an error |
| `Base64Text.DecodeIs` | lang/src/pgcrypto.rs:258-281 | of any text white space is nothing and the first `=` the end, and what is left decodes if and only if it is all in the alphabet |
| `Base64Text.Base64RoundTrip` | lang/src/pgcrypto.rs:213-281 | decoding an encoding gives every octet string back (section 4 of RFC 4648) |
| `Base64Text.EncodedLines` | lang/src/pgcrypto.rs:220-224 | newlines stand at every 77th place and nowhere else, and never last |
| `Base64Text.HexRoundTrip` | lang/src/pgcrypto.rs:153-163 | hex reads back to its octets whatever white space is strewn over it |
| `Base64Text.HexIs` | lang/src/pgcrypto.rs:215 | two lower-case digits an octet, high half first |
| `Base64Text.FromHexIff` | lang/src/pgcrypto.rs:153-163 | a text is octets if and only if, white space aside, it is an even number of hex digits, and each octet is its two digits |
| `Base64Text.HexValueIff` | lang/src/pgcrypto.rs:153-163 | the hex digits and their values, both cases |
| `Crypt.PushRepeated` | lang/src/pgcrypto.rs:416-421 | the first digest is repeated to exactly the password's length |
| `Crypt.PushLengthMarks` | lang/src/pgcrypto.rs:422-430 | one mark per bit of the password's length |
| `Crypt.Md5Crypt` | lang/src/pgcrypto.rs:404-468 | with MD5 any function, the loops compute the specified 1000-round digest and text |
| `CryptLaws.FirstInputIs` | lang/src/pgcrypto.rs:407-430 | what the first digest is taken of, place by place: password, `$1$`, salt, the inner digest over and over for the password's length, a mark per bit of that length |
| `CryptLaws.RoundInputIs` | lang/src/pgcrypto.rs:432-451 | what a round hashes, place by place, for every round: odd and even, salt left out every third, password every seventh |
| `CryptLaws.DigestRuns` | lang/src/pgcrypto.rs:431-451 | the digest is the last of a chain of 1000 rounds, each of the one before |
| `CryptLaws.TailReads` | lang/src/pgcrypto.rs:453-466 | the tail's characters read back as the digest's octets in md5-crypt's own order |
| `Crypt.TailIsInjective` | lang/src/pgcrypto.rs:453-466 | two 16-octet digests print the same 22 characters only if they are equal |
| `Crypt.Md5Stable` | lang/src/pgcrypto.rs:404-406 | the salt read out of a stored hash is the salt it was made with |
| `Crypt.BcryptSaltReads` | lang/src/pgcrypto.rs:346-357 | a salt text, alone or with a digest after it, reads as its cost and sixteen octets |
| `CryptLaws.BcryptSaltIff` | lang/src/pgcrypto.rs:346-357 | a bcrypt salt is exactly a cost of 4 to 31, a dollar and at least 22 characters, the first 22 in the alphabet |
| `CryptLaws.CryptAnswersIff` | lang/src/pgcrypto.rs:332-340 | `crypt` answers exactly the four bcrypt versions with a readable salt, and `$1$` |
| `CryptLaws.BcryptHashIs` | lang/src/pgcrypto.rs:346-369 | a bcrypt hash keeps version, cost and salt, and reads the first 72 octets of the password and no more |
| `Crypt.GenSaltReadsBack` | lang/src/pgcrypto.rs:306-318 | `gen_salt('bf', r)` answers exactly for costs 4 to 31 and is read back as cost r and the octets drawn |
| `CryptLaws.GenSaltIff` | lang/src/pgcrypto.rs:306-330 | `gen_salt` answers exactly `md5`, and `bf` with 4 to 31 rounds or none given |
| `Crypt.Md5SaltIsUsedWhole` | lang/src/pgcrypto.rs:319-323 | a generated md5 salt is neither cut nor split |
| `CryptLaws.Md5SaltLetters` | lang/src/pgcrypto.rs:319-323 | each character of a generated md5 salt is the alphabet's at the low six bits of the octet drawn |
| `Crypt.StoredHashVerifies` | lang/src/pgcrypto.rs:332-369 | hashing a password under its own stored hash gives that hash, for every accepted ASCII salt of either scheme |
| `Backfill.BatchOverruns` | bench/src/bin/battle50k.rs:2937-2957 | one filled row in the BATCH-th place and a batch of 1001 rows |
| `Backfill.CountProves` | bench/src/bin/battle50k.rs:2876-2881 | the two counts agree exactly when every row is filled |
| `Backfill.BornMicrosIff` | bench/src/bin/battle50k.rs:1235-1241 | an integer converts, and to what, exactly: 10000 year + 100 month + day, year 1 to 9999, month 1 to 12, day 1 to 28, to that day's midnight |
| `Backfill.FilledFromBorn` | bench/src/bin/battle50k.rs:2948-2966 | a row that any run fills holds the midnight its own `born` writes |
| `Backfill.SafeGrows` | bench/src/bin/battle50k.rs:2838-2841 | filling rows never makes a safe marker unsafe |
| `Backfill.Bench.constructor` | bench/src/bin/battle50k.rs:3000-3005 | a new process starts from what the killed one left on disk |
| `Backfill.Bench.Commit` | bench/src/bin/battle50k.rs:2967 | a commit writes everything the handle holds and not the marker, or the process, its life run out, dies and nothing changed |
| `Backfill.Bench.WriteMarker` | bench/src/bin/battle50k.rs:2859-2874 | the marker is replaced, or the process, its life run out, leaves it as it was or torn |
| `Backfill.Bench.CountBatch` | bench/src/bin/battle50k.rs:2887-2904 | one counting batch moves on unless the rows are out, and counts what it passes |
| `Backfill.Bench.BornTsCounts` | bench/src/bin/battle50k.rs:2882-2911 | the batched count is the number of rows and of filled rows |
| `Backfill.Bench.ScanBatch` | bench/src/bin/battle50k.rs:2934-2957 | the batch collects exactly the unfilled rows it walks, and walks at most BATCH rows if and only if the rows end first or the BATCH-th still needs filling; or it meets a row that converts to nothing |
| `Backfill.Bench.UpdateBatch` | bench/src/bin/battle50k.rs:2963-2966 | exactly the batch's rows become filled, each with its own `born` converted, and nothing else changes; refused only at a row that does not convert |
| `Backfill.Bench.PrepareBatch` | bench/src/bin/battle50k.rs:2930-2968 | in the handle only: every row up to the next cursor is filled, and a safe cursor is followed by a safe one |
| `Backfill.Bench.FillBatch` | bench/src/bin/battle50k.rs:2930-2970 | rows are filled up to the cursor it leaves, the marker stays safe at every kill point, and a turn costs two writes or none |
| `Backfill.Bench.FillBornTs` | bench/src/bin/battle50k.rs:2921-2973 | the pass terminates with every row past the start cursor filled and committed, refuses only a row that converts to nothing, or dies safely, and only with less life than two writes a batch |
| `Backfill.Bench.Build` | bench/src/bin/battle50k.rs:3044-3049 | the index is Ready and committed; rows and marker are untouched |
| `Backfill.Bench.FinishBuilding` | bench/src/bin/battle50k.rs:3050-3061 | every listed index left Building ends Ready; one being dropped is left alone, and no other changes |
| `Backfill.Bench.BuildIndexes` | bench/src/bin/battle50k.rs:3050-3074 | every wanted index ends Ready unless it was listed and being dropped; refused only if one exists unlisted or there is no room |
| `Backfill.Bench.EnsureIndex` | core/engine/src/collections/catalog.rs:1477-1497 | a wanted index that is not listed is made unless its name is taken or 64 indexes are there, and no built one is lost |
| `Backfill.Bench.FinalCheck` | bench/src/bin/battle50k.rs:3075-3095 | passes if and only if there are rows, all filled, and no listed wanted index is short of Ready |
| `Backfill.Bench.Refill` | bench/src/bin/battle50k.rs:3035-3043 | after it every row is filled, whatever cursor the first pass started from |
| `Backfill.Bench.FillColumn` | bench/src/bin/battle50k.rs:3026-3043 | the column is there and every row filled, the marker safe throughout, within two passes' writes |
| `Backfill.Bench.Finish` | bench/src/bin/battle50k.rs:3044-3097 | from filled rows on: provisioned and marked complete exactly when not hopeless, unless killed; the marker safe throughout, no index lost |
| `Backfill.Bench.ProvisionFunctions` | bench/src/bin/battle50k.rs:3000-3098 | Ok(true) means provisioned, column and complete marker included, even from a stale cursor or an incomplete list, and only if not hopeless; Ok(false) exactly when the listed indexes are Ready and the marker or the rows say so; a safe marker stays safe through every kill, filled rows hold their own `born`, no index is lost; and a run with the stated number of writes to live ends Ok unless hopeless |
| `Backfill.EveryHistoryIsSafe` | bench/src/bin/battle50k.rs:2838-3098 | over every history of killed, refused and finished runs no cursor passes an unfilled row, complete means filled, and each Ok leaves every row filled for good and the indexes Ready |
| `TopK.NearestIsUnique` | bench/src/bin/battle50k.rs:2374-2376 | the ranking by (distance, ordinal) cut to k is one list |
| `TopK.NearestSays` | bench/src/bin/battle50k.rs:2374-2376 | min(k, n) rows, nearer ones first and of two equally near the smaller ordinal, and every row left out after all that are kept |
| `TopK.SmallestIsNearest` | bench/src/bin/battle50k.rs:2374-2376 | sorting, dropping repeats and truncating gives the k nearest |
| `TopK.CutLosesNothing` | bench/src/bin/battle50k.rs:2374-2376 | cutting a part to k before ranking it with more rows changes nothing |
| `TopK.FurtherRowsDoNotCount` | bench/src/bin/battle50k.rs:2377-2382 | rows further than every kept one leave a full ranking as it is |
| `GridNearest.BuildGrid` | bench/src/bin/battle50k.rs:2340-2344 | a bucket lists exactly the rows of its cell, each once |
| `GridNearest.ScanBucket` | bench/src/bin/battle50k.rs:2363-2371 | a bucket adds its rows but the row itself, none twice |
| `GridNearest.ScanShell` | bench/src/bin/battle50k.rs:2354-2373 | a ring's scan finds exactly the rows whose cell is that many steps away, each once and none from inside |
| `GridNearest.KeepNearest` | bench/src/bin/battle50k.rs:2374-2376 | the kept three and the next shell rank to the three nearest of everything inside |
| `GridNearest.CoveredIsEnough` | bench/src/bin/battle50k.rs:2377-2382 | leaving when the third-best is within the covered distance is sound |
| `GridNearest.WholeCorpusInside` | bench/src/bin/battle50k.rs:2383-2387 | leaving when the ring exceeds the extent is sound: every row has been seen |
| `GridNearest.Extent` | bench/src/bin/battle50k.rs:2320-2327 | the summed extent spans every pair of rows |
| `GridNearest.SearchRings` | bench/src/bin/battle50k.rs:2352-2389 | the ring loop terminates with the brute-force min(3, n-1) nearest |
| `GridNearest.RelatedEdges` | bench/src/bin/battle50k.rs:2318-2403 | for every cell size the edges stand row by row, from each row to its three nearest others, nearest first and ties by ordinal, each with its source's `born` and a weight w with w (1000 + metres) = 1000; the same list as ranking every pair |
| `GridNearest.RelatedWeight` | bench/src/bin/battle50k.rs:2290-2295 | the weight w of any distance has w (1000 + metres) = 1000, above 0 and at most 1 |
| `RingLadder.Ask` | bench/src/bin/battle50k.rs:5345-5357 | one query answers the K nearest of the rows it reaches and their largest distance |
| `RingLadder.AcceptedIsExact` | bench/src/bin/battle50k.rs:5359-5363 | an accepted rung cannot be beaten from outside its box |
| `RingLadder.LiteNearest` | bench/src/bin/battle50k.rs:5364-5395 | whichever rung accepts, or the scan when none does, the answer is the exact K nearest of the whole corpus |
| `HeapCounter.StepSettles` | bench/src/bin/battle50k.rs:280-283 | one atomic step moves the settled peak only as far as the live counter |
| `HeapCounter.RunSettles` | bench/src/bin/battle50k.rs:280-314 | over every interleaving the settled peak is the larger of its start and every live value |
| `HeapCounter.LiveIsConserved` | bench/src/bin/battle50k.rs:280-314 | the live counter is its start plus all added less all freed |
| `HeapCounter.HeldMaxIsHeld` | bench/src/bin/battle50k.rs:270-273 | the most the counter held is held at some point of the run |
| `HeapCounter.NoneHeldIsLarger` | bench/src/bin/battle50k.rs:270-273 | and at no point more |
| `HeapCounter.QuietMarkIsExact` | bench/src/bin/battle50k.rs:320-330 | after a mark with no add in flight, once none is pending the peak is exactly the most the counter held |
| `HeapCounter.Drain` | bench/src/bin/battle50k.rs:280-283 | every state can settle, and settling holds no new live value |
| `HeapCounter.PeakIsExactIff` | bench/src/bin/battle50k.rs:320-330 | a mark gives exact peaks over all runs if and only if its pending adds settle to the larger of mark and live |
| `HeapCounter.UnquietMarks` | bench/src/bin/battle50k.rs:320-325 | an add between the load and the store, or one in flight from before, makes a peak wrong |
| `RangeTable.BuildRanges` | tools/generate_text_unicode_v1.rs:16-28 | for any property the ranges are sorted, disjoint and non-adjacent, hold exactly the members, and never bridge the surrogates |
| `RangeTable.CanonicalIsUnique` | tools/generate_text_unicode_v1.rs:16-28 | two such tables with the same members are the same list |

## Left out

- Lexer texts are sequences of octets (one `char` per octet); the UTF-8 check inside quoted text cannot fail on a Rust `&str` and is not modelled.
- Error messages and error offsets: an error is one `None`, `Refused` or `Overflows`.
- Tokenizer.ScanNumber: leaves out the f64 value; a number token keeps its spelling and, for integers, its exact i64 value, and is printed as spelled where `Tok::written` prints the f64. Rust's f64 parser accepts every spelling the scan produces.
- Timestamp.ReadTimestamp: leaves out non-ASCII input between the white space at its ends, where the source slices octets and may panic inside a character.
- Crypt.Md5Crypt: leaves out non-ASCII salts, which the source cuts at an octet and prints through a lossy conversion.
- Crypt.Md5Stable: leaves out non-ASCII salts, for the same reason.
- Crypt.StoredHashVerifies: leaves out non-ASCII salts, for the same reason.
- `to_char`, `substring`, `split_part` and the other string functions: easy members.
- The `lower(col)` and JSON member shapes of `text_filter`, with their expression indexes.
- Like.FoldText: lower-casing itself is any function that agrees with ASCII; lower-casing a pattern character by character and a text as a whole may differ in the standard library (a final sigma), and the model says what is matched, not that the two agree.
- Real and Bool scalar keys, and the key of a missing value.
- MD5 and bcrypt themselves: arbitrary functions with a 16-octet or ASCII result; that a bcrypt text is version, cost, salt and digest in that order is taken from the crate that prints it.
- GridNearest.RelatedEdges: assumes that distances are not negative and that rows more than k whole cells apart are further than k times `metres_per_cell`; floats are reals and cell numbers unbounded integers. How the source picks `cell` and `metres_per_cell` is left open: any positive cell will do.
- RingLadder.LiteNearest: assumes that each box covers its radius.
- Backfill.Bench.ProvisionFunctions: index contents, and I/O errors other than a kill, are not modelled; the list it is given may leave indexes out, as the source looks at ids 1 to 64, but what it lists is taken to be true.
- HeapCounter.RunSettles: relaxed atomics are modelled as an interleaving of atomic steps on the two counters.
- The LOWER table of the Unicode generator, its printing, and the alphanumeric property itself, which is any predicate here.
- prepare, bind, run, explain, the catalog, the parser and the planner: they delegate to code outside this model or are data declarations.
