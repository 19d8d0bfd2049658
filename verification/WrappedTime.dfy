/** The same folding in a build without overflow checks, where an i64 step that
    leaves the range wraps around instead of panicking: what is still right, what
    is not, and where exactly. */
module WrappedTime {
  import opened Calendar
  import opened TimeUnits
  import opened TimeRewrite

  const TWO_64 := 0x1_0000_0000_0000_0000

  // ---------------------------------------------------------------- the code

  /** `civil_from_micros` with wrapping steps. */
  function CivilWrapped(t: int): Civil {
    var rest := Wrap(t - Wrap(t / MICROS_PER_DAY * MICROS_PER_DAY));
    var date := CivilFromDays(t / MICROS_PER_DAY);
    Civil(date.year, date.month, date.day,
          rest / MICROS_PER_HOUR,
          rest % MICROS_PER_HOUR / MICROS_PER_MINUTE,
          rest % MICROS_PER_MINUTE / MICROS_PER_SECOND,
          rest % MICROS_PER_SECOND)
  }

  /** `micros_from_civil` with wrapping steps, left to right. */
  function MicrosWrapped(c: Civil): int {
    Wrap(Wrap(Wrap(Wrap(Wrap(
      DaysFromCivil(c.year, c.month, c.day) * MICROS_PER_DAY)
      + c.hour * MICROS_PER_HOUR)
      + c.minute * MICROS_PER_MINUTE)
      + c.second * MICROS_PER_SECOND)
      + c.micro)
  }

  /** `date_trunc`, on a unit it does not refuse. */
  function TruncWrapped(unit: TimeUnit, t: int): int
    requires Truncates(unit)
  {
    var c := CivilWrapped(t);
    match unit
    case Year => MicrosWrapped(Midnight(c.year, 1, 1))
    case Month => MicrosWrapped(Midnight(c.year, c.month, 1))
    case Day => MicrosWrapped(Midnight(c.year, c.month, c.day))
    case Hour => Wrap(t - t % MICROS_PER_HOUR)
    case Minute => Wrap(t - t % MICROS_PER_MINUTE)
    case Second => Wrap(t - t % MICROS_PER_SECOND)
  }

  /** `next_unit`. */
  function NextWrapped(unit: TimeUnit, start: int): int
    requires Truncates(unit)
  {
    var c := CivilWrapped(start);
    match unit
    case Year => MicrosWrapped(Midnight(c.year + 1, 1, 1))
    case Month =>
      if c.month == 12 then MicrosWrapped(Midnight(c.year + 1, 1, 1))
      else MicrosWrapped(Midnight(c.year, c.month + 1, 1))
    case Day => Wrap(start + MICROS_PER_DAY)
    case Hour => Wrap(start + MICROS_PER_HOUR)
    case Minute => Wrap(start + MICROS_PER_MINUTE)
    case Second => Wrap(start + MICROS_PER_SECOND)
  }

  function TruncRangeWrapped(unit: TimeUnit, op: CmpOp, at: int): Checked<Range> {
    if !Truncates(unit) then Refused
    else
      var start := TruncWrapped(unit, at);
      var end := NextWrapped(unit, start);
      if start == at then WindowRange(op, start, end) else OffsetWindowRange(op, end)
  }

  function TruncBetweenWrapped(unit: TimeUnit, lower: int, upper: int): Checked<Range> {
    if !Truncates(unit) then Refused
    else
      var lo, hi := TruncWrapped(unit, lower), TruncWrapped(unit, upper);
      var start := if lo == lower then lo else NextWrapped(unit, lo);
      var end := NextWrapped(unit, hi);
      if end <= start then Ok(EMPTY) else Ok(Window(start, end))
  }

  /** `time_value`: the addition of the offset is checked in every build. */
  function TimeValueWrapped(v: Instant, clock: int): Checked<int> {
    match v
    case Literal(at) => Ok(at)
    case Clock(dateOnly, offset) =>
      var base := if dateOnly then TruncWrapped(Day, clock) else clock;
      if IsI64(base + offset) then Ok(base + offset) else Refused
  }

  function ClockRangeWrapped(op: CmpOp, value: Instant, clock: int): Checked<Range> {
    var at := TimeValueWrapped(value, clock);
    if at.Ok? then CompareRange(op, at.value) else Refused
  }

  function ClockBetweenWrapped(low: Instant, high: Instant, clock: int): Checked<Range> {
    var lo, hi := TimeValueWrapped(low, clock), TimeValueWrapped(high, clock);
    if !lo.Ok? || !hi.Ok? then Refused
    else if hi.value < lo.value then Ok(EMPTY)
    else Ok(Range(Included(lo.value), JustAfter(hi.value)))
  }

  /** `time_filter`.  EXTRACT saturates and never wraps. */
  function WrappedFilter(shape: TimeShape, clock: int): Checked<Range> {
    match shape
    case ExtractCmp(unit, op, n) => ExtractRange(unit, op, n)
    case ExtractBetween(unit, lower, upper) => ExtractBetweenRange(unit, lower, upper)
    case TruncCmp(unit, op, at) => TruncRangeWrapped(unit, op, at)
    case TruncBetween(unit, lower, upper) => TruncBetweenWrapped(unit, lower, upper)
    case CastDate(op, at) => TruncRangeWrapped(Day, op, at)
    case ClockCmp(op, value) => ClockRangeWrapped(op, value, clock)
    case ClockBetween(low, high) => ClockBetweenWrapped(low, high, clock)
  }

  // ------------------------------------------------------ wrapped units, exactly

  lemma WrapsOnce(x: int)
    ensures IsI64(x) ==> Wrap(x) == x
    ensures I64_MIN - TWO_64 <= x < I64_MIN ==> Wrap(x) == x + TWO_64
    ensures I64_MAX < x <= I64_MAX + TWO_64 ==> Wrap(x) == x - TWO_64
    ensures IsI64(Wrap(x))
  {
  }

  lemma WrapAdds(a: int, b: int)
    ensures Wrap(Wrap(a) + b) == Wrap(a + b)
  {
    var q := (a - I64_MIN) / TWO_64;
    assert Wrap(a) == a - q * TWO_64;
    WrapShifts(a + b, q);
  }

  lemma WrapShifts(x: int, q: int)
    ensures Wrap(x - q * TWO_64) == Wrap(x)
  {
    var y := x - I64_MIN;
    var p, r := y / TWO_64, y % TWO_64;
    assert y - q * TWO_64 == (p - q) * TWO_64 + r;
    QuotientOf(p - q, r);
  }

  lemma QuotientOf(p: int, r: int)
    requires 0 <= r < TWO_64
    ensures (p * TWO_64 + r) % TWO_64 == r
  {
  }

  lemma CivilWrappedIsExact(t: int)
    requires IsI64(t)
    ensures CivilWrapped(t) == CivilFromMicros(t)
  {
    hide CivilFromDays, Wrap;
    WrappedRemainderIsExact(t);
  }

  /** `micros_from_civil` is the exact number, wrapped, whatever the time of day. */
  lemma MicrosWrappedIs(c: Civil)
    ensures MicrosWrapped(c) == Wrap(MicrosFromCivil(c))
  {
    hide DaysFromCivil, Wrap;
    var d := DaysFromCivil(c.year, c.month, c.day) * MICROS_PER_DAY;
    var h, m, s := c.hour * MICROS_PER_HOUR, c.minute * MICROS_PER_MINUTE, c.second * MICROS_PER_SECOND;
    WrapAdds(d, h);
    WrapAdds(d + h, m);
    WrapAdds(d + h + m, s);
    WrapAdds(d + h + m + s, c.micro);
  }

  lemma MidnightWrapped(year: int, month: int, day: int)
    ensures MicrosWrapped(Midnight(year, month, day)) == Wrap(DaysFromCivil(year, month, day) * MICROS_PER_DAY)
  {
    hide DaysFromCivil, Wrap;
    var x := DaysFromCivil(year, month, day) * MICROS_PER_DAY;
    WrapsOnce(x);
    WrapsOnce(Wrap(x));
  }

  /** Truncation in a wrapping build is the exact truncation, wrapped. */
  lemma TruncWrappedIs(unit: TimeUnit, t: int)
    requires Truncates(unit) && IsI64(t)
    ensures TruncWrapped(unit, t) == Wrap(Trunc(unit, t))
  {
    hide CivilFromDays, DaysFromCivil, Wrap, CivilWrapped, MicrosWrapped;
    CivilWrappedIsExact(t);
    CivilRoundTrip(t);
    var c := CivilFromMicros(t);
    match unit
    case Year => MidnightWrapped(c.year, 1, 1);
    case Month => MonthOfIndex(c.year, c.month); MidnightWrapped(c.year, c.month, 1);
    case Day => MidnightWrapped(c.year, c.month, c.day); DaysAfterCivil(t / MICROS_PER_DAY);
    case Hour => Remainder(t, MICROS_PER_HOUR);
    case Minute => Remainder(t, MICROS_PER_MINUTE);
    case Second => Remainder(t, MICROS_PER_SECOND);
  }

  lemma Remainder(t: int, d: int)
    requires d > 0
    ensures t - t % d == t / d * d
  {
  }

  lemma MonthOfIndex(year: int, month: int)
    requires 1 <= month <= 12
    ensures (12 * year + month - 1) / 12 == year && (12 * year + month - 1) % 12 == month - 1
  {
  }

  /** Stepping on in a wrapping build, from any i64 for the calendar units and by
      a fixed width for the others. */
  lemma NextWrappedIs(unit: TimeUnit, start: int)
    requires Truncates(unit) && IsI64(start)
    ensures unit.Year? || unit.Month? ==> NextWrapped(unit, start) == Wrap(UnitEnd(unit, start))
    ensures !(unit.Year? || unit.Month?) ==> NextWrapped(unit, start) == Wrap(start + UnitStart(unit, 1))
  {
    hide CivilFromDays, DaysFromCivil, Wrap, CivilWrapped, MicrosWrapped;
    CivilWrappedIsExact(start);
    CivilRoundTrip(start);
    var c := CivilFromMicros(start);
    match unit
    case Year => MidnightWrapped(c.year + 1, 1, 1);
    case Month =>
      if c.month == 12 {
        MonthOfIndex(c.year + 1, 1);
        MidnightWrapped(c.year + 1, 1, 1);
      } else {
        MonthOfIndex(c.year, c.month + 1);
        MidnightWrapped(c.year, c.month + 1, 1);
      }
    case _ =>
  }

  // ------------------------------------------------- the literals that are lost

  /** The first year that begins inside i64, and the last. */
  const FIRST := UnitStart(Year, -290_307)
  const LAST := UnitStart(Year, 294_247)

  /** The literal's year or month begins below i64: its start wraps to the far
      end.  A day, hour, minute or second there wraps twice and comes back. */
  predicate LostBelow(unit: TimeUnit, at: int) {
    (unit.Year? || unit.Month?) && at < FIRST
  }

  /** The literal's unit ends above i64. */
  predicate LostAbove(unit: TimeUnit, at: int)
    requires Truncates(unit)
  {
    EndWhole(unit) <= at
  }

  /** Where the wrapped fold cuts above a literal. */
  function WrappedEdge(unit: TimeUnit, at: int): int
    requires Truncates(unit)
  {
    if LostBelow(unit, at) then LAST
    else if LostAbove(unit, at) then UnitEnd(unit, at) - TWO_64
    else UnitEnd(unit, at)
  }

  lemma Edges()
    ensures I64_MIN < FIRST == -106_751_981 * MICROS_PER_DAY
    ensures FIRST < LAST == 106_751_982 * MICROS_PER_DAY <= I64_MAX
    ensures UnitStart(Month, 12 * -290_307) == FIRST && UnitStart(Month, 12 * 294_247) == LAST
    ensures UnitStart(Year, -290_308) == -106_752_347 * MICROS_PER_DAY
    ensures UnitStart(Month, 12 * -290_307 - 1) == -106_752_012 * MICROS_PER_DAY
    ensures UnitStart(Year, 294_248) == 106_752_347 * MICROS_PER_DAY
    ensures UnitStart(Month, 12 * 294_247 + 1) == 106_752_013 * MICROS_PER_DAY
  {
    hide DaysFromCivil;
    EdgeYears();
    EdgeYearsAbove();
    JanuaryStart(-290_307);
    JanuaryStart(294_247);
    MonthOfIndex(-290_308, 12);
    MonthOfIndex(294_247, 2);
  }

  /** A lost year or month below is the one i64::MIN lies in. */
  lemma BelowIs(unit: TimeUnit, at: int)
    requires IsI64(at) && LostBelow(unit, at)
    ensures Trunc(unit, at) == (if unit.Year? then -106_752_347 else -106_752_012) * MICROS_PER_DAY
    ensures UnitEnd(unit, at) == FIRST
  {
    hide UnitStart, UnitIndex;
    Edges();
    IndexIsRange(unit, at, if unit.Year? then -290_308 else 12 * -290_307 - 1);
  }

  /** A lost unit above is the one i64::MAX lies in, and ends soon after it. */
  lemma AboveIs(unit: TimeUnit, at: int)
    requires Truncates(unit) && IsI64(at) && LostAbove(unit, at)
    ensures I64_MAX < UnitEnd(unit, at) <= 106_752_347 * MICROS_PER_DAY
    ensures IsI64(UnitEnd(unit, at) - TWO_64) && UnitEnd(unit, at) - TWO_64 < 0 < LAST && 0 < at
  {
    hide DaysFromCivil, CivilFromDays;
    EndFits(unit, at);
    Edges();
    if unit.Year? || unit.Month? {
      hide UnitStart, UnitIndex;
      IndexIsRange(unit, at, if unit.Year? then 294_247 else 12 * 294_247);
    } else {
      hide EndWhole;
      ClockEnd(unit, at);
    }
  }

  lemma ClockEnd(unit: TimeUnit, at: int)
    requires Truncates(unit) && !(unit.Year? || unit.Month?)
    ensures Trunc(unit, at) <= at < UnitEnd(unit, at) == Trunc(unit, at) + UnitStart(unit, 1)
    ensures 0 < UnitStart(unit, 1) <= MICROS_PER_DAY
  {
    IndexBrackets(unit, at);
  }

  /** A unit that is not lost ends inside i64; a calendar unit also begins there. */
  lemma KeptIs(unit: TimeUnit, at: int)
    requires Truncates(unit) && IsI64(at) && !LostBelow(unit, at) && !LostAbove(unit, at)
    ensures IsI64(UnitEnd(unit, at))
    ensures unit.Year? || unit.Month? ==> IsI64(Trunc(unit, at)) && FIRST <= Trunc(unit, at)
  {
    hide UnitStart, UnitIndex;
    EndFits(unit, at);
    IndexBrackets(unit, at);
    BeginsAfterFirst(unit, at);
  }

  lemma BeginsAfterFirst(unit: TimeUnit, at: int)
    requires (unit.Year? || unit.Month?) ==> FIRST <= at
    ensures unit.Year? || unit.Month? ==> I64_MIN < FIRST <= Trunc(unit, at)
  {
    hide UnitStart, UnitIndex;
    Edges();
    if unit.Year? || unit.Month? {
      var k := if unit.Year? then -290_307 else 12 * -290_307;
      IndexCut(unit, at, k);
      StartsDoNotDecrease(unit, k, UnitIndex(unit, at));
    }
  }

  /** The wrapped code meets a boundary literal exactly when it is one, and cuts
      above it at `WrappedEdge`. */
  lemma EdgeIs(unit: TimeUnit, at: int)
    requires Truncates(unit) && IsI64(at)
    ensures TruncWrapped(unit, at) == at <==> Trunc(unit, at) == at
    ensures NextWrapped(unit, TruncWrapped(unit, at)) == WrappedEdge(unit, at)
  {
    hide UnitStart, UnitIndex, Wrap, TruncWrapped, NextWrapped, EndWhole;
    TruncWrappedIs(unit, at);
    WrapsOnce(Trunc(unit, at));
    NextWrappedIs(unit, TruncWrapped(unit, at));
    if !(unit.Year? || unit.Month?) {
      ClockEdge(unit, at);
    } else if LostBelow(unit, at) {
      LostEdge(unit, at);
    } else {
      CalendarEdge(unit, at);
    }
  }

  lemma ClockEdge(unit: TimeUnit, at: int)
    requires Truncates(unit) && !(unit.Year? || unit.Month?) && IsI64(at)
    ensures Wrap(Trunc(unit, at)) == at <==> Trunc(unit, at) == at
    ensures Wrap(Wrap(Trunc(unit, at)) + UnitStart(unit, 1)) == WrappedEdge(unit, at)
  {
    hide UnitStart, UnitIndex, Wrap, EndWhole;
    ClockEnd(unit, at);
    WrapsOnce(Trunc(unit, at));
    WrapAdds(Trunc(unit, at), UnitStart(unit, 1));
    WrapsOnce(UnitEnd(unit, at));
    EndFits(unit, at);
  }

  /** 2^64 is no whole number of days: a lost year or month comes back as an
      instant of December 294246, and steps on to the next January. */
  lemma LostEdge(unit: TimeUnit, at: int)
    requires IsI64(at) && LostBelow(unit, at)
    ensures Wrap(Trunc(unit, at)) != at && Trunc(unit, at) != at
    ensures Wrap(UnitEnd(unit, Wrap(Trunc(unit, at)))) == LAST
  {
    hide UnitStart, UnitIndex, Wrap;
    BelowIs(unit, at);
    Edges();
    var back := Trunc(unit, at) + TWO_64;
    WrapsOnce(Trunc(unit, at));
    WrapsOnce(LAST);
    LastDecember();
    IndexIsRange(unit, back, if unit.Year? then 294_246 else 12 * 294_247 - 1);
  }

  lemma LastDecember()
    ensures UnitStart(Year, 294_246) == 106_751_617 * MICROS_PER_DAY
    ensures UnitStart(Month, 12 * 294_247 - 1) == 106_751_951 * MICROS_PER_DAY
  {
    hide DaysFromCivil;
    DaysOfParts(294_245, 10, 1);
    DaysOfParts(294_246, 9, 1);
    MonthOfIndex(294_246, 12);
  }

  lemma CalendarEdge(unit: TimeUnit, at: int)
    requires (unit.Year? || unit.Month?) && IsI64(at) && !LostBelow(unit, at)
    ensures Wrap(Trunc(unit, at)) == Trunc(unit, at)
    ensures Wrap(UnitEnd(unit, Trunc(unit, at))) == WrappedEdge(unit, at)
  {
    hide UnitStart, UnitIndex, Wrap, EndWhole;
    BeginsAfterFirst(unit, at);
    IndexBrackets(unit, at);
    WrapsOnce(Trunc(unit, at));
    IndexOfStart(unit, UnitIndex(unit, at));
    WrapsOnce(UnitEnd(unit, at));
    EndFits(unit, at);
    if LostAbove(unit, at) { AboveIs(unit, at); }
  }

  // ---------------------------------------------------- one truncated comparison

  /** The instants a wrapped comparison answers wrongly. */
  predicate TruncErrs(unit: TimeUnit, op: CmpOp, at: int, t: int)
    requires Truncates(unit)
  {
    var onBoundary := Trunc(unit, at) == at;
    var edge := WrappedEdge(unit, at);
    if LostBelow(unit, at) then !op.Eq? && FIRST <= t < LAST
    else if !LostAbove(unit, at) then false
    else if onBoundary then (op.Eq? && at <= t) || ((op.Le? || op.Gt?) && edge <= t)
    else !op.Eq? && edge <= t
  }

  /** The comparisons a wrapped build answers rightly: every one whose literal is
      not lost; `=` when the literal is off its boundary; and `<` and `>=` when
      it is on a boundary whose unit ends above i64. */
  predicate TruncSurvives(unit: TimeUnit, op: CmpOp, at: int)
    requires Truncates(unit)
  {
    if LostBelow(unit, at) then op.Eq?
    else if !LostAbove(unit, at) then true
    else if Trunc(unit, at) == at then op.Lt? || op.Ge?
    else op.Eq?
  }

  lemma TruncRangeWrappedIs(unit: TimeUnit, op: CmpOp, at: int, t: int)
    requires Truncates(unit) && !op.Ne? && IsI64(at) && IsI64(t)
    ensures TruncRangeWrapped(unit, op, at).Ok?
    ensures Admits(TruncRangeWrapped(unit, op, at).value, t) ==
            (Compare(op, Trunc(unit, t), at) != TruncErrs(unit, op, at, t))
  {
    hide Trunc, UnitEnd, TruncWrapped, NextWrapped, LostBelow, LostAbove, FIRST, LAST, WrappedEdge;
    EdgeIs(unit, at);
    TruncCut(unit, t, at);
    CutBounds(unit, at);
    EdgeValue(unit, at);
    if Trunc(unit, at) == at {
      assert TruncRangeWrapped(unit, op, at) == WindowRange(op, at, WrappedEdge(unit, at));
    } else {
      assert TruncRangeWrapped(unit, op, at) == OffsetWindowRange(op, WrappedEdge(unit, at));
    }
  }

  lemma EdgeValue(unit: TimeUnit, at: int)
    requires Truncates(unit)
    ensures LostBelow(unit, at) ==> WrappedEdge(unit, at) == LAST
    ensures !LostBelow(unit, at) && !LostAbove(unit, at) ==> WrappedEdge(unit, at) == UnitEnd(unit, at)
  {
    hide UnitEnd, LostBelow, LostAbove, LAST;
  }

  /** What a literal's cuts look like, lost or not. */
  lemma CutBounds(unit: TimeUnit, at: int)
    requires Truncates(unit) && IsI64(at)
    ensures I64_MIN < FIRST < LAST <= I64_MAX && IsI64(WrappedEdge(unit, at))
    ensures LostBelow(unit, at) ==> Trunc(unit, at) != at && UnitEnd(unit, at) == FIRST
    ensures LostBelow(unit, at) ==> at < FIRST && !LostAbove(unit, at)
    ensures LostAbove(unit, at) ==> I64_MAX < UnitEnd(unit, at) && WrappedEdge(unit, at) < LAST && WrappedEdge(unit, at) < at
    ensures (unit.Year? || unit.Month?) && !LostBelow(unit, at) ==> FIRST <= at < UnitEnd(unit, at)
    ensures Trunc(unit, at) <= at < UnitEnd(unit, at)
  {
    hide UnitStart, UnitIndex;
    Edges();
    IndexBrackets(unit, at);
    if LostBelow(unit, at) {
      BelowIs(unit, at);
    } else if LostAbove(unit, at) {
      AboveIs(unit, at);
    } else {
      KeptIs(unit, at);
    }
  }

  lemma TruncSurvivesIff(unit: TimeUnit, op: CmpOp, at: int)
    requires Truncates(unit) && !op.Ne? && IsI64(at)
    ensures TruncSurvives(unit, op, at) <==> forall t | IsI64(t) :: !TruncErrs(unit, op, at, t)
  {
    hide Trunc, UnitEnd, LostBelow, LostAbove, FIRST, LAST;
    CutBounds(unit, at);
    if !TruncSurvives(unit, op, at) {
      var wrong := if LostBelow(unit, at) then FIRST
                      else if op.Eq? then at else WrappedEdge(unit, at);
      assert TruncErrs(unit, op, at, wrong);
    }
  }

  // ------------------------------------------------------- a truncated BETWEEN

  /** Where the rows of a BETWEEN begin: the literal, or the boundary above it. */
  function LowerCut(unit: TimeUnit, lower: int): int
    requires Truncates(unit)
  {
    if Trunc(unit, lower) == lower then lower else UnitEnd(unit, lower)
  }

  /** The BETWEENs a wrapped build answers rightly, read off its literals. */
  predicate BetweenSurvives(unit: TimeUnit, lower: int, upper: int)
    requires Truncates(unit)
  {
    if LostBelow(unit, lower) then LostBelow(unit, upper)
    else if LostAbove(unit, lower) && Trunc(unit, lower) != lower then
      LostAbove(unit, upper) || (!LostBelow(unit, upper) && UnitEnd(unit, upper) <= UnitEnd(unit, lower) - TWO_64)
    else if LostBelow(unit, upper) then LAST <= LowerCut(unit, lower)
    else !LostAbove(unit, upper)
  }

  lemma BetweenWrappedIs(unit: TimeUnit, lower: int, upper: int, t: int)
    requires Truncates(unit) && IsI64(lower) && IsI64(upper) && IsI64(t)
    ensures TruncBetweenWrapped(unit, lower, upper).Ok?
    ensures Admits(TruncBetweenWrapped(unit, lower, upper).value, t) <==>
            (if Trunc(unit, lower) == lower then lower else WrappedEdge(unit, lower)) <= t < WrappedEdge(unit, upper)
    ensures lower <= Trunc(unit, t) <= upper <==> LowerCut(unit, lower) <= t < UnitEnd(unit, upper)
  {
    hide Trunc, UnitEnd, TruncWrapped, NextWrapped, WrappedEdge;
    EdgeIs(unit, lower);
    EdgeIs(unit, upper);
    TruncCut(unit, t, lower);
    TruncCut(unit, t, upper);
  }

  /** Whether two half-open intervals hold the same i64. */
  ghost predicate SameRows(a: int, b: int, c: int, d: int) {
    forall t | IsI64(t) :: Between(a, t, b) <==> Between(c, t, d)
  }

  predicate Between(a: int, t: int, b: int) { a <= t < b }

  lemma BetweenSurvivesIff(unit: TimeUnit, lower: int, upper: int)
    requires Truncates(unit) && IsI64(lower) && IsI64(upper)
    ensures BetweenSurvives(unit, lower, upper) <==>
            SameRows(LowerCut(unit, lower), UnitEnd(unit, upper),
                     if Trunc(unit, lower) == lower then lower else WrappedEdge(unit, lower), WrappedEdge(unit, upper))
  {
    hide Trunc, UnitEnd, FIRST, LAST, EndWhole;
    CutBounds(unit, lower);
    CutBounds(unit, upper);
    var a, b := LowerCut(unit, lower), UnitEnd(unit, upper);
    var c := if Trunc(unit, lower) == lower then lower else WrappedEdge(unit, lower);
    var d := WrappedEdge(unit, upper);
    SameAboveLower(unit, lower, upper);
    if SameRows(a, b, c, d) {
      assert Between(a, FIRST, b) <==> Between(c, FIRST, d);
      assert Between(a, I64_MAX, b) <==> Between(c, I64_MAX, d);
      assert Between(a, c, b) <==> Between(c, c, d);
    }
  }

  /** Two literals whose unit is lost above share it. */
  lemma SameAboveLower(unit: TimeUnit, lower: int, upper: int)
    requires Truncates(unit) && IsI64(lower) && IsI64(upper)
    ensures LostAbove(unit, lower) && LostAbove(unit, upper) ==> UnitEnd(unit, lower) == UnitEnd(unit, upper)
  {
    hide UnitStart, UnitIndex, EndWhole;
    if LostAbove(unit, lower) && LostAbove(unit, upper) {
      IndexBrackets(unit, lower);
      IndexBrackets(unit, upper);
      CutBounds(unit, lower);
      CutBounds(unit, upper);
      var i, j := UnitIndex(unit, lower), UnitIndex(unit, upper);
      if i < j { StartsDoNotDecrease(unit, i + 1, j); }
      if j < i { StartsDoNotDecrease(unit, j + 1, i); }
    }
  }

  // ------------------------------------------------------------- clock values

  /** What the wrapped code takes a written instant for. */
  function WrappedInstant(v: Instant, clock: int): int {
    InstantOf(v, clock) + if LostDay(v, clock) then TWO_64 else 0
  }

  lemma TimeValueWrappedIs(v: Instant, clock: int)
    requires IsI64Instant(v) && IsI64(clock)
    ensures TimeValueWrapped(v, clock) ==
            if IsI64(WrappedInstant(v, clock)) then Ok(WrappedInstant(v, clock)) else Refused
    ensures LostDay(v, clock) && IsI64(WrappedInstant(v, clock)) ==>
              InstantOf(v, clock) < I64_MIN < WrappedInstant(v, clock)
  {
    hide UnitStart, UnitIndex, TruncWrapped, Wrap;
    if v.Clock? && v.dateOnly {
      TruncWrappedIs(Day, clock);
      DayOf(clock);
      WrapsOnce(Trunc(Day, clock));
    }
  }

  lemma DayOf(clock: int)
    requires IsI64(clock)
    ensures FirstWhole(Day) <= clock ==> IsI64(Trunc(Day, clock))
    ensures clock < FirstWhole(Day) ==> Trunc(Day, clock) == -106_751_992 * MICROS_PER_DAY
  {
  }

  predicate ClockBetweenSurvives(low: Instant, high: Instant, clock: int) {
    if LostDay(low, clock) then LostDay(high, clock) && InstantOf(high, clock) < InstantOf(low, clock)
    else LostDay(high, clock) ==> InstantOf(high, clock) + TWO_64 < InstantOf(low, clock)
  }

  // ------------------------------------------------------------ the theorems

  /** The statements a wrapping build folds: refusals are those of the shape and
      of the checked clock addition, never of a literal's size. */
  predicate WrappedFolds(shape: TimeShape, clock: int) {
    match shape
    case ExtractCmp(unit, op, _) => (unit.Year? || unit.Epoch?) && !op.Ne?
    case ExtractBetween(unit, lower, upper) => upper < lower || unit.Year? || unit.Epoch?
    case TruncCmp(unit, op, _) => Truncates(unit) && !op.Ne?
    case TruncBetween(unit, _, _) => Truncates(unit)
    case CastDate(op, _) => !op.Ne?
    case ClockCmp(op, value) => !op.Ne? && IsI64(WrappedInstant(value, clock))
    case ClockBetween(low, high) => IsI64(WrappedInstant(low, clock)) && IsI64(WrappedInstant(high, clock))
  }

  /** A wrapping build answers a statement if and only if it is one of those. */
  lemma WrappedAnsweredIff(shape: TimeShape, clock: int)
    requires Written(shape) && IsI64(clock)
    ensures WrappedFilter(shape, clock).Ok? <==> WrappedFolds(shape, clock)
  {
    hide TruncWrapped, NextWrapped, TimeValueWrapped, WrappedInstant;
    match shape
    case ClockCmp(_, value) => TimeValueWrappedIs(value, clock);
    case ClockBetween(low, high) => TimeValueWrappedIs(low, clock); TimeValueWrappedIs(high, clock);
    case _ =>
  }

  /** A wrapping build never panics: what it does not fold it refuses. */
  lemma WrappedNeverPanics(shape: TimeShape, clock: int)
    requires Written(shape) && IsI64(clock)
    ensures WrappedFilter(shape, clock).Refused? <==> !WrappedFolds(shape, clock)
  {
    hide TruncWrapped, NextWrapped, TimeValueWrapped, WrappedInstant, ExtractWindow;
    match shape
    case ClockCmp(_, value) => TimeValueWrappedIs(value, clock);
    case ClockBetween(low, high) => TimeValueWrappedIs(low, clock); TimeValueWrappedIs(high, clock);
    case ExtractCmp(unit, _, n) => YearOrEpoch(unit, n);
    case ExtractBetween(unit, lower, upper) => YearOrEpoch(unit, lower); YearOrEpoch(unit, upper);
    case _ =>
  }

  /** Wherever the checked fold answers, the wrapped one answers the same. */
  lemma WrappedAgrees(shape: TimeShape, clock: int)
    requires Written(shape) && IsI64(clock) && Folds(shape, clock)
    ensures WrappedFilter(shape, clock) == TimeFilter(shape, clock)
  {
    hide DateTrunc, NextUnit, Trunc, UnitEnd, TruncWrapped, NextWrapped, TimeValueWrapped, TimeValue, InstantOf,
      FirstWhole, EndWhole;
    match shape
    case TruncCmp(unit, op, at) => UnitsAgree(unit, at);
    case CastDate(op, at) => UnitsAgree(Day, at);
    case TruncBetween(unit, lower, upper) => UnitsAgree(unit, lower); UnitsAgree(unit, upper);
    case ClockCmp(_, value) => ValuesAgree(value, clock);
    case ClockBetween(low, high) => ValuesAgree(low, clock); ValuesAgree(high, clock);
    case _ =>
  }

  lemma UnitsAgree(unit: TimeUnit, at: int)
    requires Truncates(unit) && IsI64(at) && FirstWhole(unit) <= at
    ensures DateTrunc(unit, at) == Ok(TruncWrapped(unit, at)) && TruncWrapped(unit, at) == Trunc(unit, at)
    ensures at < EndWhole(unit) ==> NextUnit(unit, TruncWrapped(unit, at)) == Ok(NextWrapped(unit, TruncWrapped(unit, at)))
  {
    hide UnitStart, UnitIndex, DateTrunc, NextUnit, TruncWrapped, NextWrapped, Wrap, EndWhole;
    WholeUnit(unit, at);
    StartDayFits(unit, at);
    TruncWrappedIs(unit, at);
    WrapsOnce(Trunc(unit, at));
    EdgeIs(unit, at);
  }

  lemma ValuesAgree(v: Instant, clock: int)
    requires IsI64Instant(v) && IsI64(clock) && InstantAnswers(v, clock)
    ensures TimeValue(v, clock).Ok? && TimeValueWrapped(v, clock) == TimeValue(v, clock)
  {
    hide TimeValueWrapped, TimeValue, InstantOf, FirstWhole;
    TimeValueExact(v, clock);
    TimeValueWrappedIs(v, clock);
  }

  /** The statements a wrapping build answers rightly, read off their literals. */
  predicate Survives(shape: TimeShape, clock: int) {
    match shape
    case TruncCmp(unit, op, at) => Truncates(unit) && TruncSurvives(unit, op, at)
    case TruncBetween(unit, lower, upper) => Truncates(unit) && BetweenSurvives(unit, lower, upper)
    case CastDate(op, at) => TruncSurvives(Day, op, at)
    case ClockCmp(_, value) => !LostDay(value, clock)
    case ClockBetween(low, high) => ClockBetweenSurvives(low, high, clock)
    case _ => CutFits(shape)
  }

  ghost predicate IsExact(shape: TimeShape, clock: int)
    requires WrappedFilter(shape, clock).Ok?
  {
    forall t | IsI64(t) :: Admits(WrappedFilter(shape, clock).value, t) <==> Holds(shape, clock, t)
  }

  /** A wrapped fold is exact on every stored instant if and only if `Survives`. */
  lemma WrappedIsExactIff(shape: TimeShape, clock: int)
    requires Written(shape) && IsI64(clock) && WrappedFilter(shape, clock).Ok?
    ensures IsExact(shape, clock) <==> Survives(shape, clock)
  {
    match shape
    case ExtractCmp(_, _, _) => ExtractIsExactIff(shape, clock);
    case ExtractBetween(_, _, _) => ExtractIsExactIff(shape, clock);
    case TruncCmp(unit, op, at) => TruncIsExactIff(shape, unit, op, at, clock);
    case CastDate(op, at) => TruncIsExactIff(shape, Day, op, at, clock);
    case TruncBetween(unit, lower, upper) => BetweenIsExactIff(unit, lower, upper, clock);
    case ClockCmp(op, value) => ClockIsExactIff(op, value, clock);
    case ClockBetween(low, high) => ClockBetweenIsExactIff(low, high, clock);
  }

  lemma ExtractIsExactIff(shape: TimeShape, clock: int)
    requires shape.ExtractCmp? || shape.ExtractBetween?
    requires Written(shape) && IsI64(clock) && WrappedFilter(shape, clock).Ok?
    ensures IsExact(shape, clock) <==> Survives(shape, clock)
  {
    hide ExtractRange, ExtractBetweenRange, CutFits, Holds, Admits;
    FoldIsExactIff(shape, clock);
  }

  lemma TruncIsExactIff(shape: TimeShape, unit: TimeUnit, op: CmpOp, at: int, clock: int)
    requires shape == TruncCmp(unit, op, at) || (shape == CastDate(op, at) && unit == Day)
    requires IsI64(at) && WrappedFilter(shape, clock).Ok?
    ensures IsExact(shape, clock) <==> Survives(shape, clock)
  {
    hide TruncWrapped, NextWrapped, Trunc, TruncErrs, TruncSurvives, Admits, Compare;
    assert Truncates(unit) && !op.Ne?;
    forall t | IsI64(t)
      ensures Admits(TruncRangeWrapped(unit, op, at).value, t) ==
              (Compare(op, Trunc(unit, t), at) != TruncErrs(unit, op, at, t))
    {
      TruncRangeWrappedIs(unit, op, at, t);
    }
    TruncSurvivesIff(unit, op, at);
  }

  lemma BetweenIsExactIff(unit: TimeUnit, lower: int, upper: int, clock: int)
    requires Truncates(unit) && IsI64(lower) && IsI64(upper)
    ensures WrappedFilter(TruncBetween(unit, lower, upper), clock).Ok?
    ensures IsExact(TruncBetween(unit, lower, upper), clock) <==> BetweenSurvives(unit, lower, upper)
  {
    hide TruncWrapped, NextWrapped, Trunc, WrappedEdge, BetweenSurvives, Admits, UnitEnd, LowerCut;
    var a, b := LowerCut(unit, lower), UnitEnd(unit, upper);
    var c := if Trunc(unit, lower) == lower then lower else WrappedEdge(unit, lower);
    var d := WrappedEdge(unit, upper);
    forall t | IsI64(t)
      ensures Admits(TruncBetweenWrapped(unit, lower, upper).value, t) <==> Between(c, t, d)
      ensures lower <= Trunc(unit, t) <= upper <==> Between(a, t, b)
    {
      BetweenWrappedIs(unit, lower, upper, t);
    }
    BetweenSurvivesIff(unit, lower, upper);
  }

  lemma ClockIsExactIff(op: CmpOp, value: Instant, clock: int)
    requires IsI64Instant(value) && IsI64(clock) && WrappedFilter(ClockCmp(op, value), clock).Ok?
    ensures IsExact(ClockCmp(op, value), clock) <==> !LostDay(value, clock)
  {
    hide TimeValueWrapped, InstantOf, LostDay;
    TimeValueWrappedIs(value, clock);
    var shape := ClockCmp(op, value);
    var x := WrappedInstant(value, clock);
    if LostDay(value, clock) {
      assert Holds(shape, clock, if op.Eq? then x else I64_MIN) != Admits(WrappedFilter(shape, clock).value, if op.Eq? then x else I64_MIN);
    }
  }

  lemma ClockBetweenIsExactIff(low: Instant, high: Instant, clock: int)
    requires IsI64Instant(low) && IsI64Instant(high) && IsI64(clock)
    requires WrappedFilter(ClockBetween(low, high), clock).Ok?
    ensures IsExact(ClockBetween(low, high), clock) <==> ClockBetweenSurvives(low, high, clock)
  {
    hide TimeValueWrapped, InstantOf, LostDay;
    TimeValueWrappedIs(low, clock);
    TimeValueWrappedIs(high, clock);
    var shape := ClockBetween(low, high);
    var x := WrappedInstant(low, clock);
    if IsExact(shape, clock) {
      assert Holds(shape, clock, x) <==> Admits(WrappedFilter(shape, clock).value, x);
      assert Holds(shape, clock, I64_MIN) <==> Admits(WrappedFilter(shape, clock).value, I64_MIN);
    }
  }

  /** The wrapped fold at a failing input: from the year of i64::MIN on, every
      row qualifies, and a wrapping build answers only those of year 294247. */
  lemma WrapLosesRows(clock: int)
    ensures var shape := TruncCmp(Year, Ge, I64_MIN);
            && WrappedFilter(shape, clock) == Ok(From(LAST)) && !Folds(shape, clock)
            && Holds(shape, clock, 0) && !Admits(From(LAST), 0)
  {
    hide UnitStart, UnitIndex, TruncWrapped, NextWrapped, EndWhole;
    Edges();
    EdgeIs(Year, I64_MIN);
    CutBounds(Year, I64_MIN);
    TruncCut(Year, 0, I64_MIN);
  }
}
