/** Folding `interval '<n> <unit> ...'` to microseconds with checked arithmetic. */
module Interval {
  import opened TimeUnits
  import opened Text
  import opened Trimming

  /** One `<magnitude> <unit>` pair; `scale` is the unit's microseconds. */
  datatype Term = Term(magnitude: int, scale: int)

  function Lower(s: string): (r: string)
    ensures |r| == |s|
  {
    seq(|s|, i requires 0 <= i < |s| => if 'A' <= s[i] <= 'Z' then s[i] - 'A' + 'a' else s[i])
  }

  /** The fixed-width units; a month and a year have no width. */
  function UnitScale(unit: string): Option<int> {
    if unit in {"microsecond", "microseconds", "us"} then Some(1)
    else if unit in {"millisecond", "milliseconds", "ms"} then Some(1_000)
    else if unit in {"second", "seconds", "sec", "secs", "s"} then Some(MICROS_PER_SECOND)
    else if unit in {"minute", "minutes", "min", "mins"} then Some(MICROS_PER_MINUTE)
    else if unit in {"hour", "hours", "h"} then Some(MICROS_PER_HOUR)
    else if unit in {"day", "days", "d"} then Some(MICROS_PER_DAY)
    else if unit in {"week", "weeks", "w"} then Some(7 * MICROS_PER_DAY)
    else None
  }

  /** Every unit there is, and its width in microseconds. */
  const UNITS: set<(string, int)> := {
    ("microsecond", 1), ("microseconds", 1), ("us", 1),
    ("millisecond", 1_000), ("milliseconds", 1_000), ("ms", 1_000),
    ("second", 1_000_000), ("seconds", 1_000_000), ("sec", 1_000_000), ("secs", 1_000_000), ("s", 1_000_000),
    ("minute", 60_000_000), ("minutes", 60_000_000), ("min", 60_000_000), ("mins", 60_000_000),
    ("hour", 3_600_000_000), ("hours", 3_600_000_000), ("h", 3_600_000_000),
    ("day", 86_400_000_000), ("days", 86_400_000_000), ("d", 86_400_000_000),
    ("week", 604_800_000_000), ("weeks", 604_800_000_000), ("w", 604_800_000_000)
  }

  lemma UnitScaleIff(unit: string, width: int)
    ensures UnitScale(unit) == Some(width) <==> (unit, width) in UNITS
  {
  }

  function SignLength(s: string): (n: nat)
    ensures n <= |s|
  {
    if s != "" && (s[0] == '-' || s[0] == '+') then 1 else 0
  }

  /** Where the optional sign and the digits of a magnitude end. */
  function NumberEnd(body: string): (n: nat)
    ensures SignLength(body) <= n <= |body|
  {
    SignLength(body) + DigitRun(body[SignLength(body)..])
  }

  /** The term `body` starts with, and the text after it. */
  function ReadTerm(body: string): (r: Option<(Term, string)>)
    ensures r.Some? ==> |r.value.1| < |body|
  {
    var end := NumberEnd(body);
    if end == SignLength(body) then None
    else
      var magnitude := ParseInt(body[..end]);
      var after := TrimStart(body[end..]);
      TrimStartShortens(body[end..]);
      var unit := AlphaRun(after);
      var scale := UnitScale(Lower(after[..unit]));
      if magnitude.None? || scale.None? then None
      else Some((Term(magnitude.value, scale.value), after[unit..]))
  }

  lemma {:induction false} TrimStartShortens(s: string)
    ensures |TrimStart(s)| <= |s|
  {
    if s != "" && IsSpace(s[0]) { TrimStartShortens(s[1..]); }
  }

  /** Every term of a text, or `None` when some part of it is not a term. */
  function Terms(rest: string): Option<seq<Term>>
    decreases |rest|
  {
    var body := TrimStart(rest);
    if body == "" then Some([])
    else
      var first := ReadTerm(body);
      TrimStartShortens(rest);
      if first.None? then None
      else
        var others := Terms(first.value.1);
        if others.None? then None else Some([first.value.0] + others.value)
  }

  /** The unbounded-integer value of some terms. */
  function Sum(terms: seq<Term>): int {
    if terms == [] then 0 else terms[0].magnitude * terms[0].scale + Sum(terms[1..])
  }

  /** `checked_mul` and `checked_add` down the terms. */
  function CheckedTotal(total: int, terms: seq<Term>): Option<int>
    decreases |terms|
  {
    if terms == [] then Some(total)
    else
      var product := terms[0].magnitude * terms[0].scale;
      if IsI64(product) && IsI64(total + product) then CheckedTotal(total + product, terms[1..]) else None
  }

  /** `parse_interval`; `None` stands for every refusal. */
  function ParseInterval(text: string): Option<int> {
    var s := Trim(text);
    var terms := Terms(s);
    if s == "" || terms.None? || terms == Some([]) then None else CheckedTotal(0, terms.value)
  }

  /** `parse_interval` as written. */
  method FoldInterval(text: string) returns (r: Option<int>)
    ensures r == ParseInterval(text)
  {
    hide ReadTerm, Trim;
    var s := Trim(text);
    if s == "" { return None; }
    var total, seen, rest := 0, false, s;
    while TrimStart(rest) != ""
      invariant !seen ==> rest == s && total == 0
      invariant seen && Terms(rest).None? ==> ParseInterval(text) == None
      invariant seen && Terms(rest).Some? ==> ParseInterval(text) == CheckedTotal(total, Terms(rest).value)
      decreases |rest|
    {
      var body := TrimStart(rest);
      TrimStartShortens(rest);
      var term := ReadTerm(body);
      if term.None? { return None; }
      var (first, after) := term.value;
      var product := first.magnitude * first.scale;
      assert Terms(after).Some? ==> Terms(rest).value[1..] == Terms(after).value;
      if !IsI64(product) || !IsI64(total + product) { return None; }
      total, seen, rest := total + product, true, after;
    }
    if !seen {
      return None;
    }
    r := Some(total);
  }

  // ------------------------------------------------------------ the theorems

  /** Checked arithmetic answers exactly when every product and every running
      total stays in i64. */
  predicate RunningTotalsFit(total: int, terms: seq<Term>)
    decreases |terms|
  {
    terms == [] ||
    var product := terms[0].magnitude * terms[0].scale;
    IsI64(product) && IsI64(total + product) && RunningTotalsFit(total + product, terms[1..])
  }

  lemma {:induction false} CheckedTotalIsSum(total: int, terms: seq<Term>)
    ensures CheckedTotal(total, terms) ==
            if RunningTotalsFit(total, terms) then Some(total + Sum(terms)) else None
    decreases |terms|
  {
    if terms != [] {
      CheckedTotalIsSum(total + terms[0].magnitude * terms[0].scale, terms[1..]);
    }
  }

  lemma {:induction false} CheckedTotalOfConcat(total: int, a: seq<Term>, b: seq<Term>)
    ensures CheckedTotal(total, a + b) ==
            if CheckedTotal(total, a).Some? then CheckedTotal(CheckedTotal(total, a).value, b) else None
    decreases |a|
  {
    if a == [] {
      assert a + b == b;
    } else {
      assert (a + b)[1..] == a[1..] + b;
      CheckedTotalOfConcat(total + a[0].magnitude * a[0].scale, a[1..], b);
    }
  }

  /** An accepted interval is the exact, unbounded sum of its terms, each term a
      magnitude times a fixed-width unit. */
  lemma IntervalIsExactSum(text: string)
    ensures ParseInterval(text).Some? <==>
            && Terms(Trim(text)).Some? && Terms(Trim(text)).value != []
            && RunningTotalsFit(0, Terms(Trim(text)).value)
    ensures ParseInterval(text).Some? ==>
              ParseInterval(text).value == Sum(Terms(Trim(text)).value)
  {
    if Terms(Trim(text)).Some? { CheckedTotalIsSum(0, Terms(Trim(text)).value); }
  }

  // -------------------------------------------------- intervals side by side

  /** Text that cannot extend a number or a unit standing before it. */
  predicate Separated(tail: string) { tail == "" || IsSpace(tail[0]) }

  lemma {:induction false} TrimStartOfConcat(s: string, tail: string)
    requires TrimStart(s) != ""
    ensures TrimStart(s + tail) == TrimStart(s) + tail
  {
    if s != "" && IsSpace(s[0]) {
      assert (s + tail)[1..] == s[1..] + tail;
      TrimStartOfConcat(s[1..], tail);
    } else {
      assert (s + tail)[0] == s[0];
    }
  }

  lemma {:induction false} TrimStartEmpty(s: string)
    requires TrimStart(s) == ""
    ensures Spaces(s)
  {
    if s != "" {
      TrimStartEmpty(s[1..]);
      assert s == [s[0]] + s[1..];
    }
  }

  lemma {:induction false} DigitRunOfConcat(s: string, tail: string)
    requires DigitRun(s) < |s|
    ensures DigitRun(s + tail) == DigitRun(s)
  {
    if IsDigit(s[0]) {
      assert (s + tail)[1..] == s[1..] + tail;
      DigitRunOfConcat(s[1..], tail);
    }
  }

  lemma {:induction false} AlphaRunOfConcat(s: string, tail: string)
    requires Separated(tail)
    ensures AlphaRun(s + tail) == AlphaRun(s)
  {
    if s == "" {
      assert s + tail == tail;
    } else if IsAlpha(s[0]) {
      assert (s + tail)[1..] == s[1..] + tail;
      AlphaRunOfConcat(s[1..], tail);
    }
  }

  /** A magnitude is always followed by a unit. */
  lemma TermHasUnit(body: string)
    requires ReadTerm(body).Some?
    ensures NumberEnd(body) < |body| && TrimStart(body[NumberEnd(body)..]) != ""
  {
    assert Lower("") == "" && UnitScale("") == None;
    assert TrimStart("") == "" && body[|body|..] == "";
    var after := TrimStart(body[NumberEnd(body)..]);
    var unit := after[..AlphaRun(after)];
    assert UnitScale(Lower(unit)).Some?;
    assert unit != "";
  }

  lemma NumberEndOfConcat(body: string, tail: string)
    requires NumberEnd(body) < |body|
    ensures NumberEnd(body + tail) == NumberEnd(body)
    ensures SignLength(body + tail) == SignLength(body)
  {
    var sign := SignLength(body);
    assert (body + tail)[0] == body[0];
    assert (body + tail)[sign..] == body[sign..] + tail;
    DigitRunOfConcat(body[sign..], tail);
  }

  /** A term is read the same whatever separated text follows it. */
  lemma ReadTermOfConcat(body: string, tail: string)
    requires Separated(tail) && ReadTerm(body).Some?
    ensures ReadTerm(body + tail) == Some((ReadTerm(body).value.0, ReadTerm(body).value.1 + tail))
  {
    hide UnitScale, ParseInt, Lower, NumberEnd, SignLength, AlphaRun, TrimStart, Separated;
    TermHasUnit(body);
    NumberEndOfConcat(body, tail);
    var end := NumberEnd(body);
    var after := TrimStart(body[end..]);
    assert (body + tail)[..end] == body[..end];
    assert (body + tail)[end..] == body[end..] + tail;
    TrimStartOfConcat(body[end..], tail);
    AlphaRunOfConcat(after, tail);
    var unit := AlphaRun(after);
    assert (after + tail)[..unit] == after[..unit];
    assert (after + tail)[unit..] == after[unit..] + tail;
  }

  /** Terms of separated texts are read one after the other. */
  lemma {:induction false} TermsOfConcat(s: string, tail: string)
    requires Separated(tail) && Terms(s).Some? && Terms(tail).Some?
    ensures Terms(s + tail) == Some(Terms(s).value + Terms(tail).value)
    decreases |s|
  {
    hide ReadTerm, TrimStart, Terms, Separated;
    var body := TrimStart(s);
    FirstTerm(s);
    if body == "" {
      TrimStartEmpty(s);
      TermsAfterSpaces(s, tail);
      assert [] + Terms(tail).value == Terms(tail).value;
    } else {
      TrimStartOfConcat(s, tail);
      TrimStartShortens(s);
      var (t, after) := ReadTerm(body).value;
      ReadTermOfConcat(body, tail);
      TermsOfConcat(after, tail);
      FirstTerm(s + tail);
      var a, b := Terms(after).value, Terms(tail).value;
      assert [t] + (a + b) == [t] + a + b;
    }
  }

  /** The first term of a text, and the others. */
  lemma FirstTerm(s: string)
    ensures TrimStart(s) == "" ==> Terms(s) == Some([])
    ensures TrimStart(s) != "" && ReadTerm(TrimStart(s)).None? ==> Terms(s) == None
    ensures TrimStart(s) != "" && ReadTerm(TrimStart(s)).Some? ==>
              var (t, after) := ReadTerm(TrimStart(s)).value;
              Terms(s) == if Terms(after).None? then None else Some([t] + Terms(after).value)
  {
    hide ReadTerm, TrimStart;
  }

  lemma {:induction false} TermsOfSpaces(w: string)
    requires Spaces(w)
    ensures TrimStart(w) == "" && Terms(w) == Some([])
  {
    TrimStartOfSpaces(w, "");
    assert w + "" == w;
  }

  /** Two accepted intervals written side by side fold to the checked total of
      both: the sum of their values whenever no running total leaves i64, and a
      refusal otherwise. */
  lemma IntervalsAdd(a: string, b: string)
    requires ParseInterval(a).Some? && ParseInterval(b).Some?
    ensures ParseInterval(a + " " + b) ==
            if RunningTotalsFit(ParseInterval(a).value, Terms(Trim(b)).value)
            then Some(ParseInterval(a).value + ParseInterval(b).value)
            else None
  {
    hide Trim, Terms, CheckedTotal, RunningTotalsFit;
    var wa, wa' := TrimParts(a);
    var wb, wb' := TrimParts(b);
    var ta, tb := Trim(a), Trim(b);
    var mid := wa' + " " + wb;
    var x := ta + mid + tb;
    assert a + " " + b == wa + x + wb';
    TrimOf(wa, x, wb');
    TermsOfSpaces(mid);
    TermsAfterSpaces(mid, tb);
    assert x == ta + (mid + tb);
    TermsOfConcat(ta, mid + tb);
    var both := Terms(ta).value + Terms(tb).value;
    CheckedTotalOfConcat(0, Terms(ta).value, Terms(tb).value);
    CheckedTotalIsSum(0, Terms(tb).value);
    CheckedTotalIsSum(ParseInterval(a).value, Terms(tb).value);
    IntervalIsExactSum(b);
  }

  lemma TermsAfterSpaces(w: string, s: string)
    requires Spaces(w)
    ensures Terms(w + s) == Terms(s)
  {
    TrimStartOfSpaces(w, s);
  }

  // -------------------------------------------------------- what a term is

  /** A unit's name, in any case. */
  predicate SameUnit(unit: string, name: string) {
    |unit| == |name| && forall i :: 0 <= i < |unit| ==>
      IsAlpha(name[i]) && (unit[i] == name[i] || unit[i] as int + 32 == name[i] as int)
  }

  /** Digits, with one sign or none. */
  predicate IsMagnitude(number: string) {
    var digits := if number != "" && (number[0] == '+' || number[0] == '-') then number[1..] else number;
    digits != "" && AllDigits(digits)
  }

  /** A signed number, white space or none, and a unit in any case read as that
      number of those units, and what follows is left. */
  lemma TermReads(number: string, gap: string, unit: string, name: string, width: int, tail: string)
    requires IsMagnitude(number) && ParseInt(number).Some? && Spaces(gap)
    requires (name, width) in UNITS && SameUnit(unit, name) && (tail == "" || !IsAlpha(tail[0]))
    ensures ReadTerm(number + gap + unit + tail) == Some((Term(ParseInt(number).value, width), tail))
  {
    hide UnitScale, ParseInt, UNITS, TrimStart, AlphaRun, Lower, NumberEnd, SignLength, IsMagnitude, SameUnit, ReadTerm;
    UnitScaleIff(name, width);
    NamesAreWords(name, width);
    SameSize(unit, name);
    UnitLetters(unit, name);
    var body, after := number + gap + unit + tail, unit + tail;
    assert body == number + (gap + after);
    GapStands(gap, after);
    NumberStands(number, gap + after);
    TrimStartOfSpaces(gap, after);
    NothingToTrim(after);
    RunOfLetters(unit, tail);
    LowerIs(unit, name);
    assert body[..|number|] == number && body[|number|..] == gap + after;
    assert after[..|unit|] == unit && after[|unit|..] == tail;
    ReadTermIs(body, after);
  }

  lemma SameSize(unit: string, name: string)
    requires SameUnit(unit, name)
    ensures |unit| == |name|
  {
  }

  lemma GapStands(gap: string, after: string)
    requires Spaces(gap) && after != "" && !IsDigit(after[0])
    ensures !IsDigit((gap + after)[0])
  {
  }

  lemma NothingToTrim(s: string)
    requires s != "" && !IsSpace(s[0])
    ensures TrimStart(s) == s
  {
  }

  /** A term from its parts. */
  lemma ReadTermIs(body: string, after: string)
    requires SignLength(body) < NumberEnd(body) && after == TrimStart(body[NumberEnd(body)..])
    requires ParseInt(body[..NumberEnd(body)]).Some? && UnitScale(Lower(after[..AlphaRun(after)])).Some?
    ensures ReadTerm(body) == Some((Term(ParseInt(body[..NumberEnd(body)]).value,
                                         UnitScale(Lower(after[..AlphaRun(after)])).value), after[AlphaRun(after)..]))
  {
    hide UnitScale, ParseInt, TrimStart, Lower;
  }

  lemma NamesAreWords(name: string, width: int)
    requires (name, width) in UNITS
    ensures name != "" && forall i :: 0 <= i < |name| ==> 'a' <= name[i] <= 'z'
  {
  }

  lemma UnitLetters(unit: string, name: string)
    requires SameUnit(unit, name) && forall i :: 0 <= i < |name| ==> 'a' <= name[i] <= 'z'
    ensures forall i :: 0 <= i < |unit| ==> IsAlpha(unit[i]) && !IsSpace(unit[i]) && !IsDigit(unit[i])
  {
  }

  lemma LowerIs(unit: string, name: string)
    requires SameUnit(unit, name) && forall i :: 0 <= i < |name| ==> 'a' <= name[i] <= 'z'
    ensures Lower(unit) == name
  {
  }

  lemma {:induction false} RunOfLetters(unit: string, tail: string)
    requires (forall i :: 0 <= i < |unit| ==> IsAlpha(unit[i])) && (tail == "" || !IsAlpha(tail[0]))
    ensures AlphaRun(unit + tail) == |unit|
  {
    if unit == "" {
      assert unit + tail == tail;
    } else {
      assert (unit + tail)[1..] == unit[1..] + tail;
      RunOfLetters(unit[1..], tail);
    }
  }

  lemma NumberStands(number: string, rest: string)
    requires IsMagnitude(number) && (rest == "" || !IsDigit(rest[0]))
    ensures var body := number + rest;
            NumberEnd(body) == |number| && SignLength(body) == SignLength(number) < |number|
  {
    var body, n := number + rest, SignLength(number);
    assert body[0] == number[0];
    assert body[n..] == number[n..] + rest;
    DigitRunOf(number[n..], rest);
  }

  /** A text begins with a term: a signed number, white space or none, a unit in
      any case, and then no letter. */
  predicate IsTerm(body: string, t: Term, number: string, gap: string, unit: string, name: string, tail: string) {
    && body == number + gap + unit + tail
    && IsMagnitude(number) && ParseInt(number) == Some(t.magnitude) && Spaces(gap)
    && (name, t.scale) in UNITS && SameUnit(unit, name) && (tail == "" || !IsAlpha(tail[0]))
  }

  /** The terms there are, exactly. */
  lemma ReadTermIff(body: string, t: Term, tail: string)
    ensures ReadTerm(body) == Some((t, tail)) <==>
            exists number, gap, unit, name :: IsTerm(body, t, number, gap, unit, name, tail)
  {
    hide ReadTerm, UNITS, ParseInt, IsMagnitude, SameUnit, Spaces;
    if ReadTerm(body) == Some((t, tail)) {
      var number, gap, unit, name := TermFound(body);
      assert IsTerm(body, t, number, gap, unit, name, tail);
    }
    if number, gap, unit, name :| IsTerm(body, t, number, gap, unit, name, tail) {
      TermReads(number, gap, unit, name, t.scale, tail);
    }
  }

  lemma TermFound(body: string) returns (number: string, gap: string, unit: string, name: string)
    requires ReadTerm(body).Some?
    ensures IsTerm(body, ReadTerm(body).value.0, number, gap, unit, name, ReadTerm(body).value.1)
  {
    hide UnitScale, UNITS, ParseInt, TrimStart, Lower, DigitRun, NumberEnd, AlphaRun, IsMagnitude, SameUnit, Spaces;
    var end := NumberEnd(body);
    var after := TrimStart(body[end..]);
    var cut := AlphaRun(after);
    number := body[..end];
    gap := FrontSpaces(body[end..]);
    unit := after[..cut];
    name := Lower(unit);
    MagnitudeFound(body);
    LettersFound(after);
    UnitScaleIff(name, UnitScale(name).value);
    Reassembled(body, end, gap, after, cut);
  }

  lemma Reassembled(body: string, end: nat, gap: string, after: string, cut: nat)
    requires end <= |body| && body[end..] == gap + after && cut <= |after|
    ensures body == body[..end] + gap + after[..cut] + after[cut..]
  {
    assert body == body[..end] + body[end..] && after == after[..cut] + after[cut..];
  }

  lemma MagnitudeFound(body: string)
    requires SignLength(body) < NumberEnd(body)
    ensures IsMagnitude(body[..NumberEnd(body)])
  {
    var n, end := SignLength(body), NumberEnd(body);
    var number := body[..end];
    assert number[0] == body[0];
    assert number[n..] == body[n..][..end - n];
  }

  lemma {:induction false} LettersFound(s: string)
    ensures SameUnit(s[..AlphaRun(s)], Lower(s[..AlphaRun(s)]))
    ensures AlphaRun(s) < |s| ==> !IsAlpha(s[AlphaRun(s)])
  {
    AllLetters(s);
  }

  lemma {:induction false} AllLetters(s: string)
    ensures forall i :: 0 <= i < AlphaRun(s) ==> IsAlpha(s[i])
    ensures AlphaRun(s) < |s| ==> !IsAlpha(s[AlphaRun(s)])
  {
    if s != "" && IsAlpha(s[0]) {
      AllLetters(s[1..]);
      assert s == [s[0]] + s[1..];
    }
  }
}
