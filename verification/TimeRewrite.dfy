/** Folding a date/time predicate of a WHERE clause into one scalar range over
    the stored microseconds, and the proof that the range means the predicate. */
module TimeRewrite {
  import opened Calendar
  import opened TimeUnits

  datatype CmpOp = Eq | Ne | Lt | Le | Gt | Ge

  predicate Compare(op: CmpOp, a: int, b: int) {
    match op
    case Eq => a == b
    case Ne => a != b
    case Lt => a < b
    case Le => a <= b
    case Gt => a > b
    case Ge => a >= b
  }

  /** An instant a statement compares with: a literal already read to
      microseconds, or the statement's clock moved by an interval. */
  datatype Instant = Literal(at: int) | Clock(dateOnly: bool, offset: int)

  datatype TimeShape =
    | ExtractCmp(unit: TimeUnit, op: CmpOp, n: int)
    | ExtractBetween(unit: TimeUnit, lower: int, upper: int)
    | TruncCmp(unit: TimeUnit, op: CmpOp, at: int)
    | TruncBetween(unit: TimeUnit, lower: int, upper: int)
    | CastDate(op: CmpOp, at: int)
    | ClockCmp(op: CmpOp, value: Instant)
    | ClockBetween(low: Instant, high: Instant)

  predicate IsI64Instant(v: Instant) {
    match v
    case Literal(at) => IsI64(at)
    case Clock(_, offset) => IsI64(offset)
  }

  /** Every number a statement writes is an i64. */
  predicate Written(shape: TimeShape) {
    match shape
    case ExtractCmp(_, _, n) => IsI64(n)
    case ExtractBetween(_, lower, upper) => IsI64(lower) && IsI64(upper)
    case TruncCmp(_, _, at) => IsI64(at)
    case TruncBetween(_, lower, upper) => IsI64(lower) && IsI64(upper)
    case CastDate(_, at) => IsI64(at)
    case ClockCmp(_, value) => IsI64Instant(value)
    case ClockBetween(low, high) => IsI64Instant(low) && IsI64Instant(high)
  }

  // -------------------------------------------------------------- the meaning

  /** The exact instant a written instant names. */
  function InstantOf(v: Instant, clock: int): int {
    match v
    case Literal(at) => at
    case Clock(dateOnly, offset) => (if dateOnly then Trunc(Day, clock) else clock) + offset
  }

  /** Whether a stored instant satisfies a predicate, evaluated on the row. */
  predicate Holds(shape: TimeShape, clock: int, t: int) {
    match shape
    case ExtractCmp(unit, op, n) => Compare(op, Extract(unit, t), n)
    case ExtractBetween(unit, lower, upper) => lower <= Extract(unit, t) <= upper
    case TruncCmp(unit, op, at) => Truncates(unit) && Compare(op, Trunc(unit, t), at)
    case TruncBetween(unit, lower, upper) => Truncates(unit) && lower <= Trunc(unit, t) <= upper
    case CastDate(op, at) => Compare(op, Trunc(Day, t), at)
    case ClockCmp(op, value) => Compare(op, t, InstantOf(value, clock))
    case ClockBetween(low, high) => InstantOf(low, clock) <= t <= InstantOf(high, clock)
  }

  // ------------------------------------------------------------------ ranges

  datatype Bound = Unbounded | Included(v: int) | Excluded(v: int)

  datatype Range = Range(lower: Bound, upper: Bound)

  predicate Admits(r: Range, t: int) {
    && (match r.lower case Unbounded => true case Included(v) => v <= t case Excluded(v) => v < t)
    && (match r.upper case Unbounded => true case Included(v) => t <= v case Excluded(v) => t < v)
  }

  function Window(start: int, end: int): Range { Range(Included(start), Excluded(end)) }
  function Below(end: int): Range { Range(Unbounded, Excluded(end)) }
  function From(start: int): Range { Range(Included(start), Unbounded) }

  /** `empty_range`. */
  const EMPTY := Range(Excluded(I64_MAX), Excluded(I64_MAX))

  // ---------------------------------------------------------------- the code

  /** The upper bound `at.checked_add(1)` produces. */
  function JustAfter(at: int): Bound {
    if at == I64_MAX then Unbounded else Excluded(at + 1)
  }

  /** `compare_range`. */
  function CompareRange(op: CmpOp, at: int): Checked<Range> {
    match op
    case Eq => Ok(Range(Included(at), JustAfter(at)))
    case Lt => Ok(Below(at))
    case Le => Ok(Range(Unbounded, JustAfter(at)))
    case Gt => Ok(Range(Excluded(at), Unbounded))
    case Ge => Ok(From(at))
    case Ne => Refused
  }

  /** `window_range`. */
  function WindowRange(op: CmpOp, start: int, end: int): Checked<Range> {
    match op
    case Eq => Ok(Window(start, end))
    case Lt => Ok(Below(start))
    case Le => Ok(Below(end))
    case Gt => Ok(From(end))
    case Ge => Ok(From(start))
    case Ne => Refused
  }

  /** `offset_window_range`. */
  function OffsetWindowRange(op: CmpOp, end: int): Checked<Range> {
    match op
    case Eq => Ok(EMPTY)
    case Lt => Ok(Below(end))
    case Le => Ok(Below(end))
    case Gt => Ok(From(end))
    case Ge => Ok(From(end))
    case Ne => Refused
  }

  function Saturate(x: int): int {
    if x > I64_MAX then I64_MAX else if x < I64_MIN then I64_MIN else x
  }

  /** `year_start`: the year is bounded before the calendar multiplies it. */
  function YearStart(year: int): int {
    if year > 400_000 then I64_MAX
    else if year < -400_000 then I64_MIN
    else
      var micros := DaysFromCivil(year, 1, 1) * MICROS_PER_DAY;
      if IsI64(micros) then micros else if year > 0 then I64_MAX else I64_MIN
  }

  /** `extract_window`. */
  function ExtractWindow(unit: TimeUnit, n: int): Checked<(int, int)> {
    match unit
    case Year => Ok((YearStart(n), YearStart(Saturate(n + 1))))
    case Epoch => Ok((Saturate(n * MICROS_PER_SECOND), Saturate(Saturate(n + 1) * MICROS_PER_SECOND)))
    case _ => Refused
  }

  /** The truncated comparison `date_trunc` and `::date` share. */
  function TruncRange(unit: TimeUnit, op: CmpOp, at: int): Checked<Range> {
    var start := DateTrunc(unit, at);
    if !start.Ok? then (if start.Refused? then Refused else Overflows)
    else
      var end := NextUnit(unit, start.value);
      if !end.Ok? then (if end.Refused? then Refused else Overflows)
      else if start.value == at then WindowRange(op, start.value, end.value)
      else OffsetWindowRange(op, end.value)
  }

  /** `time_value`. */
  function TimeValue(v: Instant, clock: int): Checked<int> {
    match v
    case Literal(at) => Ok(at)
    case Clock(dateOnly, offset) =>
      var base := if dateOnly then DateTrunc(Day, clock) else Ok(clock);
      if !base.Ok? then base
      else if IsI64(base.value + offset) then Ok(base.value + offset)
      else Refused
  }

  function ExtractRange(unit: TimeUnit, op: CmpOp, n: int): Checked<Range> {
    var w := ExtractWindow(unit, n);
    if w.Ok? then WindowRange(op, w.value.0, w.value.1) else Refused
  }

  function ExtractBetweenRange(unit: TimeUnit, lower: int, upper: int): Checked<Range> {
    if upper < lower then Ok(EMPTY)
    else
      var lo, hi := ExtractWindow(unit, lower), ExtractWindow(unit, upper);
      if lo.Ok? && hi.Ok? then Ok(Window(lo.value.0, hi.value.1)) else Refused
  }

  function TruncBetweenRange(unit: TimeUnit, lower: int, upper: int): Checked<Range> {
    var lo := DateTrunc(unit, lower);
    if !lo.Ok? then (if lo.Refused? then Refused else Overflows) else
    var hi := DateTrunc(unit, upper);
    if !hi.Ok? then (if hi.Refused? then Refused else Overflows) else
    var start := if lo.value == lower then lo else NextUnit(unit, lo.value);
    if !start.Ok? then (if start.Refused? then Refused else Overflows) else
    var end := NextUnit(unit, hi.value);
    if !end.Ok? then (if end.Refused? then Refused else Overflows)
    else if end.value <= start.value then Ok(EMPTY)
    else Ok(Window(start.value, end.value))
  }

  function ClockRange(op: CmpOp, value: Instant, clock: int): Checked<Range> {
    var at := TimeValue(value, clock);
    if !at.Ok? then (if at.Refused? then Refused else Overflows) else CompareRange(op, at.value)
  }

  function ClockBetweenRange(low: Instant, high: Instant, clock: int): Checked<Range> {
    var lo := TimeValue(low, clock);
    if !lo.Ok? then (if lo.Refused? then Refused else Overflows) else
    var hi := TimeValue(high, clock);
    if !hi.Ok? then (if hi.Refused? then Refused else Overflows)
    else if hi.value < lo.value then Ok(EMPTY)
    else Ok(Range(Included(lo.value), JustAfter(hi.value)))
  }

  /** `time_filter`, from the point where the literals are read. */
  function TimeFilter(shape: TimeShape, clock: int): Checked<Range> {
    match shape
    case ExtractCmp(unit, op, n) => ExtractRange(unit, op, n)
    case ExtractBetween(unit, lower, upper) => ExtractBetweenRange(unit, lower, upper)
    case TruncCmp(unit, op, at) => TruncRange(unit, op, at)
    case TruncBetween(unit, lower, upper) => TruncBetweenRange(unit, lower, upper)
    case CastDate(op, at) => TruncRange(Day, op, at)
    case ClockCmp(op, value) => ClockRange(op, value, clock)
    case ClockBetween(low, high) => ClockBetweenRange(low, high, clock)
  }

  // ------------------------------------------------------ cutting at a literal

  /** Comparing an instant's unit with unit `k` is comparing the instant with a
      boundary of `k`. */
  lemma IndexCut(unit: TimeUnit, t: int, k: int)
    requires Truncates(unit)
    ensures UnitIndex(unit, t) < k <==> t < UnitStart(unit, k)
    ensures UnitIndex(unit, t) <= k <==> t < UnitStart(unit, k + 1)
  {
    hide UnitStart, UnitIndex;
    IndexBrackets(unit, t);
    var i := UnitIndex(unit, t);
    if i < k { StartsDoNotDecrease(unit, i + 1, k); } else { StartsDoNotDecrease(unit, k, i); }
    if i <= k { StartsDoNotDecrease(unit, i + 1, k + 1); } else { StartsDoNotDecrease(unit, k + 1, i); }
  }

  /** Comparing a truncated instant with any literal is one cut at a boundary. */
  lemma TruncCut(unit: TimeUnit, t: int, at: int)
    requires Truncates(unit)
    ensures Trunc(unit, t) <= at <==> t < UnitEnd(unit, at)
    ensures Trunc(unit, t) < at <==> t < if Trunc(unit, at) == at then at else UnitEnd(unit, at)
    ensures Trunc(unit, t) == at <==> Trunc(unit, at) == at && at <= t < UnitEnd(unit, at)
  {
    hide UnitStart, UnitIndex;
    var i, k := UnitIndex(unit, t), UnitIndex(unit, at);
    IndexCut(unit, t, k);
    IndexBrackets(unit, at);
    if i < k { StartsIncrease(unit, i, k); }
    if k < i { StartsDoNotDecrease(unit, k + 1, i); }
  }

  lemma TruncRangeExact(unit: TimeUnit, op: CmpOp, at: int, t: int)
    requires Truncates(unit) && IsI64(at) && IsI64(t) && TruncRange(unit, op, at).Ok?
    ensures Admits(TruncRange(unit, op, at).value, t) <==> Compare(op, Trunc(unit, t), at)
  {
    hide UnitStart, UnitIndex, DateTrunc, NextUnit, FirstWhole, EndWhole;
    WholeUnit(unit, at);
    TruncCut(unit, t, at);
  }

  // ------------------------------------------------------------- saturation

  /** `year_start` is the year's true start, held inside i64. */
  lemma YearStartSaturates(year: int)
    ensures YearStart(year) == Saturate(UnitStart(Year, year))
  {
    hide DaysFromCivil;
    YearFits(year);
  }

  /** Exactly the years -290307 to 294247 begin inside i64. */
  lemma YearFits(year: int)
    ensures year >= 294_248 ==> UnitStart(Year, year) > I64_MAX
    ensures year <= -290_308 ==> UnitStart(Year, year) < I64_MIN
    ensures -290_308 < year < 294_248 ==> IsI64(UnitStart(Year, year))
  {
    hide UnitStart;
    EdgeStarts();
    if year >= 294_248 {
      StartsDoNotDecrease(Year, 294_248, year);
    } else if year <= -290_308 {
      StartsDoNotDecrease(Year, year, -290_308);
    } else {
      StartsDoNotDecrease(Year, -290_307, year);
      StartsDoNotDecrease(Year, year, 294_247);
    }
  }

  /** The unit whose grid an EXTRACT field counts. */
  function Grid(unit: TimeUnit): TimeUnit {
    if unit.Year? then Year else Second
  }

  /** The field's value at `i64::MAX`, the largest a column can hold. */
  function LastField(unit: TimeUnit): int {
    if unit.Year? then 294_247 else 9_223_372_036_854
  }

  lemma ExtractIsIndex(unit: TimeUnit, t: int)
    requires unit.Year? || unit.Epoch?
    ensures Extract(unit, t) == UnitIndex(Grid(unit), t)
  {
    hide CivilFromDays;
  }

  lemma ExtractWindowSaturates(unit: TimeUnit, n: int)
    requires IsI64(n) && (unit.Year? || unit.Epoch?)
    ensures ExtractWindow(unit, n)
            == Ok((Saturate(UnitStart(Grid(unit), n)), Saturate(UnitStart(Grid(unit), n + 1))))
  {
    if unit.Year? {
      hide UnitStart, YearStart;
      YearStartSaturates(n);
      YearStartSaturates(n + 1);
      if n == I64_MAX {
        YearFits(n);
        YearFits(n + 1);
      }
    }
  }

  /** Where the boundaries of a field's window leave i64. */
  lemma FieldEdge(unit: TimeUnit, n: int)
    requires unit.Year? || unit.Epoch?
    ensures UnitStart(Grid(unit), n) <= I64_MAX <==> n <= LastField(unit)
    ensures UnitIndex(Grid(unit), I64_MAX) == LastField(unit)
  {
    if unit.Year? { YearEdge(n); }
  }

  lemma YearEdge(n: int)
    ensures UnitStart(Year, n) <= I64_MAX <==> n <= 294_247
    ensures UnitIndex(Year, I64_MAX) == 294_247
  {
    hide UnitStart, UnitIndex;
    EdgeStarts();
    if n <= 294_247 { StartsDoNotDecrease(Year, n, 294_247); } else { StartsDoNotDecrease(Year, 294_248, n); }
    IndexIsRange(Year, I64_MAX, 294_247);
  }

  // ------------------------------------------------------------ the theorems

  /** The condition, readable off the statement, under which no cut of an
      EXTRACT comparison lies past i64::MAX while deciding i64::MAX's row. */
  predicate ExtractCutFits(unit: TimeUnit, op: CmpOp, n: int) {
    match op
    case Eq => n != LastField(unit)
    case Lt => n <= LastField(unit)
    case Ge => n <= LastField(unit)
    case Le => n < LastField(unit)
    case Gt => n < LastField(unit)
    case Ne => true
  }

  predicate CutFits(shape: TimeShape) {
    match shape
    case ExtractCmp(unit, op, n) => ExtractCutFits(unit, op, n)
    case ExtractBetween(unit, lower, upper) => !(lower <= LastField(unit) <= upper)
    case _ => true
  }

  /** A comparison of unit indices, as saturated cuts. */
  lemma SaturatedWindow(g: TimeUnit, op: CmpOp, n: int, t: int)
    requires Truncates(g) && !op.Ne? && IsI64(t)
    ensures var i := UnitIndex(g, t);
            var a, b := UnitStart(g, n), UnitStart(g, n + 1);
            Admits(WindowRange(op, Saturate(a), Saturate(b)).value, t) ==
            (Compare(op, i, n) !=
             (t == I64_MAX && (match op case Eq => a <= I64_MAX < b
                                        case Lt => a > I64_MAX
                                        case Ge => a > I64_MAX
                                        case Le => b > I64_MAX
                                        case Gt => b > I64_MAX)))
  {
    hide UnitStart, UnitIndex;
    IndexCut(g, t, n);
    StartsIncrease(g, n, n + 1);
  }

  /** An EXTRACT comparison is folded exactly, except that i64::MAX itself is
      answered wrongly precisely when the cut does not fit. */
  lemma ExtractRangeExact(unit: TimeUnit, op: CmpOp, n: int, t: int)
    requires IsI64(n) && IsI64(t) && ExtractRange(unit, op, n).Ok?
    ensures Admits(ExtractRange(unit, op, n).value, t) ==
            (Compare(op, Extract(unit, t), n) != (t == I64_MAX && !ExtractCutFits(unit, op, n)))
  {
    YearOrEpoch(unit, n);
    hide UnitStart, UnitIndex, Extract, LastField, ExtractWindow, Grid, Saturate, Admits, Compare;
    ExtractWindowSaturates(unit, n);
    ExtractIsIndex(unit, t);
    SaturatedWindow(Grid(unit), op, n, t);
    FieldEdge(unit, n);
    FieldEdge(unit, n + 1);
  }

  lemma SaturatedBetween(g: TimeUnit, lower: int, upper: int, t: int)
    requires Truncates(g) && lower <= upper && IsI64(t)
    ensures var i := UnitIndex(g, t);
            var a, b := UnitStart(g, lower), UnitStart(g, upper + 1);
            Admits(Window(Saturate(a), Saturate(b)), t) ==
            (lower <= i <= upper && !(t == I64_MAX && a <= I64_MAX < b))
  {
    hide UnitStart, UnitIndex;
    IndexCut(g, t, lower);
    IndexCut(g, t, upper);
  }

  /** An EXTRACT BETWEEN is folded exactly, except that i64::MAX itself is left
      out precisely when its field lies in the interval. */
  lemma ExtractBetweenExact(unit: TimeUnit, lower: int, upper: int, t: int)
    requires IsI64(lower) && IsI64(upper) && IsI64(t) && ExtractBetweenRange(unit, lower, upper).Ok?
    ensures Admits(ExtractBetweenRange(unit, lower, upper).value, t) ==
            ((lower <= Extract(unit, t) <= upper) != (t == I64_MAX && lower <= LastField(unit) <= upper))
  {
    hide Extract, LastField, ExtractWindow;
    if lower <= upper { UncrossedBetween(unit, lower, upper, t); }
  }

  lemma UncrossedBetween(unit: TimeUnit, lower: int, upper: int, t: int)
    requires IsI64(lower) && IsI64(upper) && IsI64(t) && ExtractBetweenRange(unit, lower, upper).Ok? && lower <= upper
    ensures Admits(ExtractBetweenRange(unit, lower, upper).value, t) ==
            ((lower <= Extract(unit, t) <= upper) != (t == I64_MAX && lower <= LastField(unit) <= upper))
  {
    YearOrEpoch(unit, lower);
    hide UnitStart, UnitIndex, Extract, LastField, ExtractWindow, Grid, Saturate, Admits;
    ExtractWindowSaturates(unit, lower);
    ExtractWindowSaturates(unit, upper);
    ExtractIsIndex(unit, t);
    ExtractIsIndex(unit, I64_MAX);
    SaturatedBetween(Grid(unit), lower, upper, t);
    FieldEdge(unit, lower);
    FieldEdge(unit, upper + 1);
  }

  lemma YearOrEpoch(unit: TimeUnit, n: int)
    ensures ExtractWindow(unit, n).Ok? <==> unit.Year? || unit.Epoch?
    ensures Truncates(Grid(unit))
  {
    hide YearStart;
  }

  lemma TruncBetweenExact(unit: TimeUnit, lower: int, upper: int, t: int)
    requires Truncates(unit) && IsI64(lower) && IsI64(upper) && IsI64(t)
    requires TruncBetweenRange(unit, lower, upper).Ok?
    ensures Admits(TruncBetweenRange(unit, lower, upper).value, t) <==> lower <= Trunc(unit, t) <= upper
  {
    hide UnitStart, UnitIndex, DateTrunc, NextUnit, FirstWhole, EndWhole, Trunc, UnitEnd;
    WholeUnit(unit, lower);
    WholeUnit(unit, upper);
    TruncCut(unit, t, lower);
    TruncCut(unit, t, upper);
  }

  /** A clock's day begins below i64. */
  predicate LostDay(v: Instant, clock: int) {
    v.Clock? && v.dateOnly && clock < FirstWhole(Day)
  }

  /** A written instant is the exact one; it is refused exactly when the sum
      leaves i64, and overflows exactly when the clock's day begins below i64. */
  lemma TimeValueExact(v: Instant, clock: int)
    requires IsI64Instant(v) && IsI64(clock)
    ensures TimeValue(v, clock) ==
            if LostDay(v, clock) then Overflows
            else if IsI64(InstantOf(v, clock)) then Ok(InstantOf(v, clock)) else Refused
  {
    hide UnitStart, UnitIndex, DateTrunc, FirstWhole, EndWhole;
    WholeUnit(Day, clock);
  }

  lemma OnlyUnitsTruncate(unit: TimeUnit, t: int)
    ensures DateTrunc(unit, t).Ok? ==> Truncates(unit)
  {
  }

  /** The rewrite preserves meaning: the folded range admits exactly the stored
      instants the predicate holds for, but for i64::MAX itself, which it
      answers wrongly precisely when `CutFits` fails. */
  lemma FoldPreservesMeaning(shape: TimeShape, clock: int, t: int)
    requires Written(shape) && IsI64(clock) && IsI64(t) && TimeFilter(shape, clock).Ok?
    ensures Admits(TimeFilter(shape, clock).value, t) ==
            (Holds(shape, clock, t) != (t == I64_MAX && !CutFits(shape)))
  {
    hide DateTrunc, Extract, Trunc, NextUnit, ExtractWindow, TimeValue, InstantOf;
    match shape
    case ExtractCmp(unit, op, n) => ExtractRangeExact(unit, op, n, t);
    case ExtractBetween(unit, lower, upper) => ExtractBetweenExact(unit, lower, upper, t);
    case TruncCmp(unit, op, at) => OnlyUnitsTruncate(unit, at); TruncRangeExact(unit, op, at, t);
    case TruncBetween(unit, lower, upper) => OnlyUnitsTruncate(unit, lower); TruncBetweenExact(unit, lower, upper, t);
    case CastDate(op, at) => TruncRangeExact(Day, op, at, t);
    case ClockCmp(_, value) => TimeValueExact(value, clock);
    case ClockBetween(low, high) => TimeValueExact(low, clock); TimeValueExact(high, clock);
  }

  /** A fold is exact on every stored instant if and only if `CutFits`. */
  lemma FoldIsExactIff(shape: TimeShape, clock: int)
    requires Written(shape) && IsI64(clock) && TimeFilter(shape, clock).Ok?
    ensures (forall t | IsI64(t) :: Admits(TimeFilter(shape, clock).value, t) <==> Holds(shape, clock, t))
            <==> CutFits(shape)
  {
    hide TimeFilter, Holds, CutFits, Admits;
    forall t | IsI64(t)
      ensures Admits(TimeFilter(shape, clock).value, t) ==
              (Holds(shape, clock, t) != (t == I64_MAX && !CutFits(shape)))
    {
      FoldPreservesMeaning(shape, clock, t);
    }
    assert IsI64(I64_MAX);
    var atMax := Admits(TimeFilter(shape, clock).value, I64_MAX);
  }

  /** The fold at its failing input: the last instant a column can hold lies in
      year 294247 and is not among the rows of that year. */
  lemma LastInstantIsMissed(clock: int)
    ensures TimeFilter(ExtractCmp(Year, Eq, 294_247), clock) == Ok(Window(UnitStart(Year, 294_247), I64_MAX))
    ensures Holds(ExtractCmp(Year, Eq, 294_247), clock, I64_MAX)
    ensures !Admits(Window(UnitStart(Year, 294_247), I64_MAX), I64_MAX)
  {
    hide UnitStart, UnitIndex, Extract, ExtractWindow;
    ExtractWindowSaturates(Year, 294_247);
    YearFits(294_247);
    YearFits(294_248);
    ExtractIsIndex(Year, I64_MAX);
    FieldEdge(Year, 294_247);
  }

  // ------------------------------------------------ which statements are folded

  predicate InstantAnswers(v: Instant, clock: int) {
    !LostDay(v, clock) && IsI64(InstantOf(v, clock))
  }

  /** The statements that fold to one range: no `<>`, an EXTRACT of the year or
      the epoch, and literals whose units lie wholly inside i64. */
  predicate Folds(shape: TimeShape, clock: int) {
    match shape
    case ExtractCmp(unit, op, _) => (unit.Year? || unit.Epoch?) && !op.Ne?
    case ExtractBetween(unit, lower, upper) => upper < lower || unit.Year? || unit.Epoch?
    case TruncCmp(unit, op, at) => Truncates(unit) && !op.Ne? && FirstWhole(unit) <= at < EndWhole(unit)
    case TruncBetween(unit, lower, upper) =>
      && Truncates(unit) && FirstWhole(unit) <= lower && FirstWhole(unit) <= upper < EndWhole(unit)
      && (Trunc(unit, lower) == lower || lower < EndWhole(unit))
    case CastDate(op, at) => !op.Ne? && FirstWhole(Day) <= at < EndWhole(Day)
    case ClockCmp(op, value) => !op.Ne? && InstantAnswers(value, clock)
    case ClockBetween(low, high) => InstantAnswers(low, clock) && InstantAnswers(high, clock)
  }

  /** A statement is answered if and only if it is one of those. */
  lemma AnsweredIff(shape: TimeShape, clock: int)
    requires Written(shape) && IsI64(clock)
    ensures TimeFilter(shape, clock).Ok? <==> Folds(shape, clock)
  {
    hide DateTrunc, NextUnit, Trunc, UnitEnd, UnitStart, FirstWhole, EndWhole, TimeValue, InstantOf;
    match shape
    case TruncCmp(unit, op, at) => TruncAnswers(unit, op, at);
    case TruncBetween(unit, lower, upper) =>
      OnlyUnitsTruncate(unit, lower);
      if Truncates(unit) {
        WholeUnit(unit, lower);
        WholeUnit(unit, upper);
      }
    case CastDate(op, at) => TruncAnswers(Day, op, at);
    case ClockCmp(_, value) => TimeValueExact(value, clock);
    case ClockBetween(low, high) => TimeValueExact(low, clock); TimeValueExact(high, clock);
    case _ =>
  }

  /** A build with overflow checks panics: a literal's unit or the clock's day
      leaves i64 before anything refuses the statement.  The civil date of a
      literal is worked out before its unit is looked at. */
  predicate Panics(shape: TimeShape, clock: int) {
    match shape
    case ExtractCmp(_, _, _) => false
    case ExtractBetween(_, _, _) => false
    case TruncCmp(unit, _, at) =>
      if Truncates(unit) then !(FirstWhole(unit) <= at < EndWhole(unit)) else at < FirstWhole(Day)
    case TruncBetween(unit, lower, upper) =>
      if Truncates(unit) then
        || lower < FirstWhole(unit) || upper < FirstWhole(unit) || EndWhole(unit) <= upper
        || (EndWhole(unit) <= lower && Trunc(unit, lower) != lower)
      else lower < FirstWhole(Day)
    case CastDate(_, at) => !(FirstWhole(Day) <= at < EndWhole(Day))
    case ClockCmp(_, value) => LostDay(value, clock)
    case ClockBetween(low, high) => LostDay(low, clock) || (IsI64(InstantOf(low, clock)) && LostDay(high, clock))
  }

  /** A statement is refused: `<>`, a field that repeats, a unit that does not
      truncate, or a clock moved out of i64, and no panic before that. */
  predicate Refuses(shape: TimeShape, clock: int) {
    && !Panics(shape, clock)
    && match shape
       case ExtractCmp(unit, op, _) => op.Ne? || !(unit.Year? || unit.Epoch?)
       case ExtractBetween(unit, lower, upper) => lower <= upper && !(unit.Year? || unit.Epoch?)
       case TruncCmp(unit, op, _) => op.Ne? || unit.Dow? || unit.Epoch?
       case TruncBetween(unit, _, _) => unit.Dow? || unit.Epoch?
       case CastDate(op, _) => op.Ne?
       case ClockCmp(op, value) => op.Ne? || !IsI64(InstantOf(value, clock))
       case ClockBetween(low, high) => !IsI64(InstantOf(low, clock)) || !IsI64(InstantOf(high, clock))
  }

  /** The three ways a statement may end, each with its exact condition. */
  lemma OutcomeIs(shape: TimeShape, clock: int)
    requires Written(shape) && IsI64(clock)
    ensures TimeFilter(shape, clock).Overflows? <==> Panics(shape, clock)
    ensures TimeFilter(shape, clock).Refused? <==> Refuses(shape, clock)
    ensures TimeFilter(shape, clock).Ok? <==> Folds(shape, clock)
  {
    hide DateTrunc, NextUnit, Trunc, UnitEnd, UnitStart, FirstWhole, EndWhole, TimeValue, InstantOf, ExtractWindow;
    AnsweredIff(shape, clock);
    match shape
    case ExtractCmp(unit, _, n) => YearOrEpoch(unit, n);
    case ExtractBetween(unit, lower, upper) => YearOrEpoch(unit, lower); YearOrEpoch(unit, upper);
    case TruncCmp(unit, op, at) => TruncOutcome(unit, op, at);
    case TruncBetween(unit, lower, upper) => BetweenOutcome(unit, lower, upper);
    case CastDate(op, at) => TruncOutcome(Day, op, at);
    case ClockCmp(_, value) => TimeValueExact(value, clock);
    case ClockBetween(low, high) => TimeValueExact(low, clock); TimeValueExact(high, clock);
  }

  lemma TruncOutcome(unit: TimeUnit, op: CmpOp, at: int)
    requires IsI64(at)
    ensures TruncRange(unit, op, at).Overflows? <==>
            if Truncates(unit) then !(FirstWhole(unit) <= at < EndWhole(unit)) else at < FirstWhole(Day)
    ensures TruncRange(unit, op, at).Refused? ==> op.Ne? || unit.Dow? || unit.Epoch?
    ensures op.Ne? || unit.Dow? || unit.Epoch? ==> !TruncRange(unit, op, at).Ok?
  {
    hide DateTrunc, NextUnit, Trunc, UnitEnd, UnitStart, FirstWhole, EndWhole;
    NoTruncation(unit, at);
    if Truncates(unit) { BothSteps(unit, at); }
  }

  /** Truncating and stepping on, as three answers. */
  lemma BothSteps(unit: TimeUnit, at: int)
    requires Truncates(unit) && IsI64(at)
    ensures DateTrunc(unit, at) == if FirstWhole(unit) <= at then Ok(Trunc(unit, at)) else Overflows
    ensures FirstWhole(unit) <= at ==>
              NextUnit(unit, Trunc(unit, at)) == if at < EndWhole(unit) then Ok(UnitEnd(unit, at)) else Overflows
  {
    hide NextUnit, DateTrunc, UnitStart, UnitIndex, FirstWhole, EndWhole;
    DateTruncExact(unit, at);
    WholeUnit(unit, at);
  }

  lemma BetweenOutcome(unit: TimeUnit, lower: int, upper: int)
    requires IsI64(lower) && IsI64(upper)
    ensures TruncBetweenRange(unit, lower, upper).Overflows? <==> Panics(TruncBetween(unit, lower, upper), 0)
    ensures TruncBetweenRange(unit, lower, upper).Refused? ==> unit.Dow? || unit.Epoch?
    ensures unit.Dow? || unit.Epoch? ==> !TruncBetweenRange(unit, lower, upper).Ok?
  {
    hide DateTrunc, NextUnit, Trunc, UnitEnd, UnitStart, FirstWhole, EndWhole;
    NoTruncation(unit, lower);
    if Truncates(unit) {
      BothSteps(unit, lower);
      BothSteps(unit, upper);
    }
  }

  /** A field that is no unit: refused, once the literal's day is worked out. */
  lemma NoTruncation(unit: TimeUnit, at: int)
    requires IsI64(at)
    ensures !Truncates(unit) ==> DateTrunc(unit, at) == if FirstWhole(Day) <= at then Refused else Overflows
  {
    hide CivilFromMicros;
    DayFits(at);
  }

  lemma TruncAnswers(unit: TimeUnit, op: CmpOp, at: int)
    requires IsI64(at)
    ensures TruncRange(unit, op, at).Ok?
            <==> Truncates(unit) && !op.Ne? && FirstWhole(unit) <= at < EndWhole(unit)
  {
    hide DateTrunc, NextUnit, Trunc, UnitEnd, UnitStart, FirstWhole, EndWhole;
    OnlyUnitsTruncate(unit, at);
    if Truncates(unit) { WholeUnit(unit, at); }
  }

  // ----------------------------------- the ranges the benchmark writes by hand

  /** `micros_of`. */
  function MicrosOf(year: int, month: int, day: int): int {
    DaysFromCivil(year, month, day) * MICROS_PER_DAY
  }

  /** `fn_year_eq`: the hand-written year range is the year's pre-image. */
  lemma YearRangeByHand(year: int, t: int)
    ensures Extract(Year, t) == year <==> MicrosOf(year, 1, 1) <= t < MicrosOf(year + 1, 1, 1)
  {
    hide DaysFromCivil, CivilFromDays;
    IndexIsRange(Year, t, year);
  }

  /** `fn_trunc_month_range`: BETWEEN January and June of a year folds to the
      hand-written `[1 January, 1 July)`. */
  lemma MonthRangeByHand(year: int, clock: int)
    requires -290_307 <= year < 294_247
    ensures TimeFilter(TruncBetween(Month, MicrosOf(year, 1, 1), MicrosOf(year, 6, 1)), clock)
            == Ok(Window(MicrosOf(year, 1, 1), MicrosOf(year, 7, 1)))
  {
    MonthStarts(year);
    hide UnitStart, UnitIndex, MicrosOf, DateTrunc, NextUnit, EndWhole, FirstWhole;
    var k := 12 * year;
    EdgeStarts();
    StartsDoNotDecrease(Month, 12 * -290_307, k);
    StartsDoNotDecrease(Month, k + 6, 12 * 294_247);
    StartsIncrease(Month, k, k + 5);
    StartsIncrease(Month, k + 5, k + 6);
    IndexOfStart(Month, k);
    IndexOfStart(Month, k + 5);
    MonthEdges();
    WholeUnit(Month, UnitStart(Month, k));
    WholeUnit(Month, UnitStart(Month, k + 5));
  }

  lemma MonthEdges()
    ensures FirstWhole(Month) == UnitStart(Year, -290_307) && EndWhole(Month) == UnitStart(Year, 294_247)
  {
    hide UnitStart;
  }

  lemma MonthStarts(year: int)
    ensures UnitStart(Month, 12 * year) == MicrosOf(year, 1, 1)
    ensures UnitStart(Month, 12 * year + 5) == MicrosOf(year, 6, 1)
    ensures UnitStart(Month, 12 * year + 6) == MicrosOf(year, 7, 1)
  {
    hide DaysFromCivil;
    assert 12 * year / 12 == year && 12 * year % 12 == 0;
    assert (12 * year + 5) / 12 == year && (12 * year + 5) % 12 == 5;
    assert (12 * year + 6) / 12 == year && (12 * year + 6) % 12 == 6;
  }
}
