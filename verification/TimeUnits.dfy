/** Instants are microseconds since 1970-01-01T00:00:00Z in an i64.  Truncation
    to a unit, the start of the next unit and EXTRACT, with every step that can
    leave i64 made explicit. */
module TimeUnits {
  import opened Calendar

  const MICROS_PER_SECOND := 1_000_000
  const MICROS_PER_MINUTE := 60_000_000
  const MICROS_PER_HOUR := 3_600_000_000
  const MICROS_PER_DAY := 86_400_000_000

  const I64_MIN := -0x8000_0000_0000_0000
  const I64_MAX := 0x7FFF_FFFF_FFFF_FFFF

  predicate IsI64(x: int) {
    I64_MIN <= x <= I64_MAX
  }

  datatype TimeUnit = Year | Month | Day | Hour | Minute | Second | Dow | Epoch

  predicate Truncates(unit: TimeUnit) {
    !unit.Dow? && !unit.Epoch?
  }

  /** What a fallible i64 computation answers.  `Overflows` marks a step whose
      exact value leaves i64: a checked build panics there. */
  datatype Checked<+T> = Ok(value: T) | Refused | Overflows

  datatype Civil = Civil(year: int, month: int, day: int, hour: int, minute: int, second: int, micro: int)

  // ---------------------------------------------------------------- the code

  /** `civil_from_micros`, on exact integers. */
  function CivilFromMicros(micros: int): Civil {
    var rest := micros % MICROS_PER_DAY;
    var date := CivilFromDays(micros / MICROS_PER_DAY);
    Civil(date.year, date.month, date.day,
          rest / MICROS_PER_HOUR,
          rest % MICROS_PER_HOUR / MICROS_PER_MINUTE,
          rest % MICROS_PER_MINUTE / MICROS_PER_SECOND,
          rest % MICROS_PER_SECOND)
  }

  /** `floor_div_rem` multiplies the floored quotient back before subtracting. */
  predicate FloorDivRemFits(micros: int) {
    IsI64(micros / MICROS_PER_DAY * MICROS_PER_DAY)
  }

  /** `civil_from_micros`, as i64 arithmetic evaluates it. */
  function CivilChecked(micros: int): Checked<Civil> {
    if FloorDivRemFits(micros) then Ok(CivilFromMicros(micros)) else Overflows
  }

  /** `micros_from_civil`, on exact integers. */
  function MicrosFromCivil(c: Civil): int {
    DaysFromCivil(c.year, c.month, c.day) * MICROS_PER_DAY
    + c.hour * MICROS_PER_HOUR
    + c.minute * MICROS_PER_MINUTE
    + c.second * MICROS_PER_SECOND
    + c.micro
  }

  function Fit(x: int): Checked<int> {
    if IsI64(x) then Ok(x) else Overflows
  }

  function Plus(a: Checked<int>, b: int): Checked<int> {
    if a.Ok? then Fit(a.value + b) else a
  }

  /** `micros_from_civil`, as i64 arithmetic evaluates it: left to right. */
  function MicrosChecked(c: Civil): Checked<int> {
    Plus(Plus(Plus(Plus(
      Fit(DaysFromCivil(c.year, c.month, c.day) * MICROS_PER_DAY),
      c.hour * MICROS_PER_HOUR),
      c.minute * MICROS_PER_MINUTE),
      c.second * MICROS_PER_SECOND),
      c.micro)
  }

  function Midnight(year: int, month: int, day: int): Civil {
    Civil(year, month, day, 0, 0, 0, 0)
  }

  /** `date_trunc`. */
  function DateTrunc(unit: TimeUnit, micros: int): Checked<int> {
    var c := CivilChecked(micros);
    if !c.Ok? then Overflows
    else match unit
      case Year => MicrosChecked(Midnight(c.value.year, 1, 1))
      case Month => MicrosChecked(Midnight(c.value.year, c.value.month, 1))
      case Day => MicrosChecked(Midnight(c.value.year, c.value.month, c.value.day))
      case Hour => Fit(micros - micros % MICROS_PER_HOUR)
      case Minute => Fit(micros - micros % MICROS_PER_MINUTE)
      case Second => Fit(micros - micros % MICROS_PER_SECOND)
      case Dow => Refused
      case Epoch => Refused
  }

  /** `next_unit`; meant for a `start` already truncated to `unit`. */
  function NextUnit(unit: TimeUnit, start: int): Checked<int> {
    var c := CivilChecked(start);
    if !c.Ok? then Overflows
    else match unit
      case Year => MicrosChecked(Midnight(c.value.year + 1, 1, 1))
      case Month =>
        if c.value.month == 12 then MicrosChecked(Midnight(c.value.year + 1, 1, 1))
        else MicrosChecked(Midnight(c.value.year, c.value.month + 1, 1))
      case Day => Fit(start + MICROS_PER_DAY)
      case Hour => Fit(start + MICROS_PER_HOUR)
      case Minute => Fit(start + MICROS_PER_MINUTE)
      case Second => Fit(start + MICROS_PER_SECOND)
      case Dow => Refused
      case Epoch => Refused
  }

  /** `extract`, on exact integers. */
  function Extract(unit: TimeUnit, micros: int): int {
    var c := CivilFromMicros(micros);
    match unit
    case Year => c.year
    case Month => c.month
    case Day => c.day
    case Hour => c.hour
    case Minute => c.minute
    case Second => c.second
    case Dow => (micros / MICROS_PER_DAY + 4) % 7
    case Epoch => micros / MICROS_PER_SECOND
  }

  // ------------------------------------------------------- civil round trips

  /** The civil reading of any instant is a date that exists with a time of day
      in range, and reads back to the instant. */
  lemma CivilRoundTrip(micros: int)
    ensures var c := CivilFromMicros(micros);
            && ValidDate(Date(c.year, c.month, c.day))
            && 0 <= c.hour < 24 && 0 <= c.minute < 60 && 0 <= c.second < 60 && 0 <= c.micro < 1_000_000
            && MicrosFromCivil(c) == micros
  {
    hide CivilFromDays, DaysFromCivil, ValidDate;
    var rest := micros % MICROS_PER_DAY;
    DaysAfterCivil(micros / MICROS_PER_DAY);
    TimeOfDay(rest);
    DivMod(micros);
  }

  lemma DivMod(micros: int)
    ensures micros / MICROS_PER_DAY * MICROS_PER_DAY + micros % MICROS_PER_DAY == micros
    ensures 0 <= micros % MICROS_PER_DAY < MICROS_PER_DAY
  {
  }

  lemma TimeOfDay(rest: int)
    requires 0 <= rest < MICROS_PER_DAY
    ensures 0 <= rest / MICROS_PER_HOUR < 24
    ensures 0 <= rest % MICROS_PER_HOUR / MICROS_PER_MINUTE < 60
    ensures 0 <= rest % MICROS_PER_MINUTE / MICROS_PER_SECOND < 60
    ensures rest / MICROS_PER_HOUR * MICROS_PER_HOUR
            + rest % MICROS_PER_HOUR / MICROS_PER_MINUTE * MICROS_PER_MINUTE
            + rest % MICROS_PER_MINUTE / MICROS_PER_SECOND * MICROS_PER_SECOND
            + rest % MICROS_PER_SECOND == rest
  {
    HourOf(rest);
    var h, a := rest / MICROS_PER_HOUR, rest % MICROS_PER_HOUR;
    MinuteOf(a);
    var m, b := a / MICROS_PER_MINUTE, a % MICROS_PER_MINUTE;
    SecondOf(b);
    var s, c := b / MICROS_PER_SECOND, b % MICROS_PER_SECOND;
    MinuteParts(60 * h + m, b);
    SecondParts(3600 * h + 60 * m + s, c);
  }

  lemma HourOf(x: int)
    ensures x / MICROS_PER_HOUR * MICROS_PER_HOUR + x % MICROS_PER_HOUR == x && 0 <= x % MICROS_PER_HOUR < MICROS_PER_HOUR
  {
  }

  lemma MinuteOf(x: int)
    ensures x / MICROS_PER_MINUTE * MICROS_PER_MINUTE + x % MICROS_PER_MINUTE == x
    ensures 0 <= x % MICROS_PER_MINUTE < MICROS_PER_MINUTE
  {
  }

  lemma SecondOf(x: int)
    ensures x / MICROS_PER_SECOND * MICROS_PER_SECOND + x % MICROS_PER_SECOND == x
    ensures 0 <= x % MICROS_PER_SECOND < MICROS_PER_SECOND
  {
  }

  lemma DayParts(q: int, r: int)
    requires 0 <= r < MICROS_PER_DAY
    ensures (q * MICROS_PER_DAY + r) / MICROS_PER_DAY == q && (q * MICROS_PER_DAY + r) % MICROS_PER_DAY == r
  {
  }

  lemma HourParts(q: int, r: int)
    requires 0 <= r < MICROS_PER_HOUR
    ensures (q * MICROS_PER_HOUR + r) / MICROS_PER_HOUR == q && (q * MICROS_PER_HOUR + r) % MICROS_PER_HOUR == r
  {
  }

  lemma MinuteParts(q: int, r: int)
    requires 0 <= r < MICROS_PER_MINUTE
    ensures (q * MICROS_PER_MINUTE + r) / MICROS_PER_MINUTE == q && (q * MICROS_PER_MINUTE + r) % MICROS_PER_MINUTE == r
  {
  }

  lemma SecondParts(q: int, r: int)
    requires 0 <= r < MICROS_PER_SECOND
    ensures (q * MICROS_PER_SECOND + r) / MICROS_PER_SECOND == q && (q * MICROS_PER_SECOND + r) % MICROS_PER_SECOND == r
  {
  }

  /** The other direction: a date that exists and a time of day in range. */
  lemma MicrosRoundTrip(c: Civil)
    requires ValidDate(Date(c.year, c.month, c.day))
    requires 0 <= c.hour < 24 && 0 <= c.minute < 60 && 0 <= c.second < 60 && 0 <= c.micro < 1_000_000
    ensures CivilFromMicros(MicrosFromCivil(c)) == c
  {
    hide CivilFromDays, DaysFromCivil, ValidDate;
    CivilAfterDays(Date(c.year, c.month, c.day));
    var t := MicrosFromCivil(c);
    var days := DaysFromCivil(c.year, c.month, c.day);
    var b := c.second * MICROS_PER_SECOND + c.micro;
    var a := c.minute * MICROS_PER_MINUTE + b;
    var rest := c.hour * MICROS_PER_HOUR + a;
    assert t == days * MICROS_PER_DAY + rest;
    DayParts(days, rest);
    HourParts(c.hour, a);
    MinuteParts(c.minute, b);
    MinuteParts(60 * c.hour + c.minute, b);
    SecondParts(c.second, c.micro);
    SecondParts(3600 * c.hour + 60 * c.minute + c.second, c.micro);
  }

  /** In i64 arithmetic the same number comes out, exactly when the day's start and
      the total fit. */
  lemma MicrosCheckedIs(c: Civil)
    requires 0 <= c.hour && 0 <= c.minute && 0 <= c.second && 0 <= c.micro
    ensures MicrosChecked(c) ==
            if IsI64(DaysFromCivil(c.year, c.month, c.day) * MICROS_PER_DAY) && IsI64(MicrosFromCivil(c))
            then Ok(MicrosFromCivil(c)) else Overflows
  {
    hide DaysFromCivil;
  }

  /** The six fields EXTRACT reads name the instant to the second. */
  lemma ExtractRecomposes(t: int)
    ensures ValidDate(Date(Extract(Year, t), Extract(Month, t), Extract(Day, t)))
    ensures 0 <= Extract(Hour, t) < 24 && 0 <= Extract(Minute, t) < 60 && 0 <= Extract(Second, t) < 60
    ensures var start := MicrosFromCivil(Civil(Extract(Year, t), Extract(Month, t), Extract(Day, t),
                                               Extract(Hour, t), Extract(Minute, t), Extract(Second, t), 0));
            start <= t < start + MICROS_PER_SECOND && start == Extract(Epoch, t) * MICROS_PER_SECOND
  {
    hide CivilFromDays, DaysFromCivil, ValidDate;
    CivilRoundTrip(t);
    var c := CivilFromMicros(t);
    var start := MicrosFromCivil(c.(micro := 0));
    assert t == start + c.micro;
    hide CivilFromMicros, MicrosFromCivil;
    WholeSeconds(c);
    SecondParts(start / MICROS_PER_SECOND, c.micro);
  }

  lemma WholeSeconds(c: Civil)
    ensures var start := MicrosFromCivil(c.(micro := 0)); start == start / MICROS_PER_SECOND * MICROS_PER_SECOND
  {
    hide DaysFromCivil;
    var minutes := 24 * 60 * DaysFromCivil(c.year, c.month, c.day) + 60 * c.hour + c.minute;
    assert MicrosFromCivil(c.(micro := 0)) == (60 * minutes + c.second) * MICROS_PER_SECOND;
  }

  /** Weekdays: 1970-01-01 is a Thursday, every instant of a day has the day's
      weekday, and each day's follows the day before, Sunday being 0. */
  lemma WeekdaysFollow(t: int)
    ensures Extract(Dow, 0) == 4 && 0 <= Extract(Dow, t) < 7
    ensures Extract(Dow, t / MICROS_PER_DAY * MICROS_PER_DAY) == Extract(Dow, t)
    ensures Extract(Dow, t + MICROS_PER_DAY) == if Extract(Dow, t) == 6 then 0 else Extract(Dow, t) + 1
  {
    hide CivilFromDays;
    var d := t / MICROS_PER_DAY;
    assert d * MICROS_PER_DAY / MICROS_PER_DAY == d;
    assert (t + MICROS_PER_DAY) / MICROS_PER_DAY == d + 1;
    NextMod7(d + 4);
  }

  lemma NextMod7(n: int)
    ensures (n + 1) % 7 == if n % 7 == 6 then 0 else n % 7 + 1
  {
  }

  /** What a release build, with no overflow checks, leaves in an i64. */
  function Wrap(x: int): int {
    (x - I64_MIN) % 0x1_0000_0000_0000_0000 + I64_MIN
  }

  /** The product `floor_div_rem` forms leaves i64 in the partial day at
      `i64::MIN`; the wrapped subtraction still recovers the remainder, so a
      wrapping build reads every i64 instant's civil time exactly. */
  lemma WrappedRemainderIsExact(t: int)
    requires IsI64(t)
    ensures IsI64(t / MICROS_PER_DAY)
    ensures Wrap(t - Wrap(t / MICROS_PER_DAY * MICROS_PER_DAY)) == t % MICROS_PER_DAY
  {
    var p := t / MICROS_PER_DAY * MICROS_PER_DAY;
    DivMod(t);
    assert Wrap(p) == if p < I64_MIN then p + 0x1_0000_0000_0000_0000 else p;
  }

  // ------------------------------------------------------------ the unit grid

  /** Which unit an instant lies in, counting from year, month or epoch zero. */
  function UnitIndex(unit: TimeUnit, t: int): int
    requires Truncates(unit)
  {
    match unit
    case Year => CivilFromMicros(t).year
    case Month => 12 * CivilFromMicros(t).year + CivilFromMicros(t).month - 1
    case Day => t / MICROS_PER_DAY
    case Hour => t / MICROS_PER_HOUR
    case Minute => t / MICROS_PER_MINUTE
    case Second => t / MICROS_PER_SECOND
  }

  /** The first instant of a unit. */
  function UnitStart(unit: TimeUnit, k: int): int
    requires Truncates(unit)
  {
    match unit
    case Year => DaysFromCivil(k, 1, 1) * MICROS_PER_DAY
    case Month => DaysFromCivil(k / 12, k % 12 + 1, 1) * MICROS_PER_DAY
    case Day => k * MICROS_PER_DAY
    case Hour => k * MICROS_PER_HOUR
    case Minute => k * MICROS_PER_MINUTE
    case Second => k * MICROS_PER_SECOND
  }

  /** The unit's first instant at or before `t`. */
  function Trunc(unit: TimeUnit, t: int): int
    requires Truncates(unit)
  {
    UnitStart(unit, UnitIndex(unit, t))
  }

  /** The first instant after the unit `t` lies in. */
  function UnitEnd(unit: TimeUnit, t: int): int
    requires Truncates(unit)
  {
    UnitStart(unit, UnitIndex(unit, t) + 1)
  }

  lemma StartsIncrease(unit: TimeUnit, a: int, b: int)
    requires Truncates(unit) && a < b
    ensures UnitStart(unit, a) < UnitStart(unit, b)
  {
    hide DaysFromCivil;
    match unit
    case Year =>
      DaysMonotone(Date(a, 1, 1), Date(b, 1, 1));
    case Month =>
      assert a / 12 < b / 12 || (a / 12 == b / 12 && a % 12 < b % 12);
      DaysMonotone(Date(a / 12, a % 12 + 1, 1), Date(b / 12, b % 12 + 1, 1));
    case _ =>
  }

  lemma FirstOfMonthIsValid(year: int, month: int)
    requires 1 <= month <= 12
    ensures ValidDate(Date(year, month, 1))
  {
  }

  /** A unit's start and end bracket every instant in it. */
  lemma IndexBrackets(unit: TimeUnit, t: int)
    requires Truncates(unit)
    ensures Trunc(unit, t) <= t < UnitEnd(unit, t)
  {
    match unit
    case Year => CalendarBrackets(t);
    case Month => CalendarBrackets(t);
    case _ =>
  }

  lemma CalendarBrackets(t: int)
    ensures Trunc(Year, t) <= t < UnitEnd(Year, t)
    ensures Trunc(Month, t) <= t < UnitEnd(Month, t)
  {
    hide CivilFromDays, DaysFromCivil;
    var days := t / MICROS_PER_DAY;
    DaysAfterCivil(days);
    var c := CivilFromDays(days);
    var k := 12 * c.year + c.month - 1;
    assert k / 12 == c.year && k % 12 == c.month - 1;
    OnOrBefore(Date(c.year, 1, 1), c);
    OnOrBefore(Date(c.year, c.month, 1), c);
    DaysMonotone(c, Date(c.year + 1, 1, 1));
    if c.month == 12 {
      assert (k + 1) / 12 == c.year + 1 && (k + 1) % 12 == 0;
    } else {
      assert (k + 1) / 12 == c.year && (k + 1) % 12 == c.month;
      FirstOfMonthIsValid(c.year, c.month + 1);
      DaysMonotone(c, Date(c.year, c.month + 1, 1));
    }
    DayBrackets(t);
  }

  lemma OnOrBefore(a: Date, b: Date)
    requires ValidDate(a) && ValidDate(b) && (a == b || Before(a, b))
    ensures Days(a) <= Days(b)
  {
    hide DaysFromCivil, ValidDate;
    if a != b { DaysMonotone(a, b); }
  }

  lemma DayBrackets(t: int)
    ensures t / MICROS_PER_DAY * MICROS_PER_DAY <= t < (t / MICROS_PER_DAY + 1) * MICROS_PER_DAY
  {
  }

  /** An instant lies in unit `k` exactly when it lies in `k`'s half-open range. */
  lemma IndexIsRange(unit: TimeUnit, t: int, k: int)
    requires Truncates(unit)
    ensures UnitIndex(unit, t) == k <==> UnitStart(unit, k) <= t < UnitStart(unit, k + 1)
  {
    hide UnitStart, UnitIndex;
    IndexBrackets(unit, t);
    var i := UnitIndex(unit, t);
    if i < k { StartsDoNotDecrease(unit, i + 1, k); }
    if k < i { StartsDoNotDecrease(unit, k + 1, i); }
  }

  lemma StartsDoNotDecrease(unit: TimeUnit, a: int, b: int)
    requires Truncates(unit) && a <= b
    ensures UnitStart(unit, a) <= UnitStart(unit, b)
  {
    hide UnitStart;
    if a < b { StartsIncrease(unit, a, b); }
  }

  lemma IndexOfStart(unit: TimeUnit, k: int)
    requires Truncates(unit)
    ensures UnitIndex(unit, UnitStart(unit, k)) == k
    ensures Trunc(unit, UnitStart(unit, k)) == UnitStart(unit, k)
  {
    hide UnitStart, UnitIndex;
    StartsIncrease(unit, k, k + 1);
    IndexIsRange(unit, UnitStart(unit, k), k);
  }

  lemma IndexMonotone(unit: TimeUnit, s: int, t: int)
    requires Truncates(unit) && s <= t
    ensures UnitIndex(unit, s) <= UnitIndex(unit, t)
  {
    hide UnitStart, UnitIndex;
    IndexBrackets(unit, s);
    IndexBrackets(unit, t);
    var i, j := UnitIndex(unit, s), UnitIndex(unit, t);
    if j < i { StartsDoNotDecrease(unit, j + 1, i); }
  }

  // --------------------------------------------- where i64 arithmetic is exact

  /** The first instant whose unit, and whose UTC day, starts inside i64.
      `floor_div_rem` rebuilds the day start whatever the unit is. */
  function FirstWhole(unit: TimeUnit): int {
    if unit.Year? || unit.Month? then UnitStart(Year, -290_307) else -106_751_991 * MICROS_PER_DAY
  }

  /** The first instant whose unit ends past i64. */
  function EndWhole(unit: TimeUnit): int
    requires Truncates(unit)
  {
    match unit
    case Year => UnitStart(Year, 294_247)
    case Month => UnitStart(Year, 294_247)
    case Day => 106_751_991 * MICROS_PER_DAY
    case Hour => 2_562_047_788 * MICROS_PER_HOUR
    case Minute => 153_722_867_280 * MICROS_PER_MINUTE
    case Second => 9_223_372_036_854 * MICROS_PER_SECOND
  }

  lemma EdgeYears()
    ensures DaysFromCivil(-290_308, 1, 1) == -106_752_347
    ensures DaysFromCivil(-290_308, 12, 1) == -106_752_012
    ensures DaysFromCivil(-290_307, 1, 1) == -106_751_981
  {
    hide DaysFromCivil;
    DaysOfParts(-290_309, 10, 1);
    DaysOfParts(-290_308, 9, 1);
    DaysOfParts(-290_308, 10, 1);
  }

  lemma EdgeYearsAbove()
    ensures DaysFromCivil(294_247, 1, 1) == 106_751_982
    ensures DaysFromCivil(294_247, 2, 1) == 106_752_013
    ensures DaysFromCivil(294_248, 1, 1) == 106_752_347
  {
    hide DaysFromCivil;
    DaysOfParts(294_246, 10, 1);
    DaysOfParts(294_246, 11, 1);
    DaysOfParts(294_247, 10, 1);
  }

  lemma MidnightMicros(year: int, month: int, day: int)
    ensures MicrosChecked(Midnight(year, month, day)) == Fit(DaysFromCivil(year, month, day) * MICROS_PER_DAY)
  {
    hide DaysFromCivil;
  }

  /** Whether the day of `t` starts inside i64. */
  lemma DayFits(t: int)
    requires IsI64(t)
    ensures FloorDivRemFits(t) <==> -106_751_991 * MICROS_PER_DAY <= t
  {
  }

  /** Month index of the January of `year`. */
  lemma JanuaryStart(year: int)
    ensures UnitStart(Month, 12 * year) == UnitStart(Year, year)
  {
    hide DaysFromCivil;
    assert 12 * year / 12 == year && 12 * year % 12 == 0;
  }

  /** The unit of `t` starts inside i64 exactly from `FirstWhole` on. */
  lemma StartFits(unit: TimeUnit, t: int)
    requires Truncates(unit) && IsI64(t)
    ensures FloorDivRemFits(t) && IsI64(Trunc(unit, t)) <==> FirstWhole(unit) <= t
  {
    hide DaysFromCivil, CivilFromDays;
    DayFits(t);
    IndexBrackets(unit, t);
    EdgeYears();
    match unit
    case Year => CalendarStartFits(Year, t, -290_307);
    case Month => JanuaryStart(-290_307); CalendarStartFits(Month, t, 12 * -290_307);
    case Day =>
    case _ => ClockUnitFits(unit, t);
  }

  lemma ClockUnitFits(unit: TimeUnit, t: int)
    requires unit.Hour? || unit.Minute? || unit.Second?
    ensures -106_751_991 * MICROS_PER_DAY <= t ==> I64_MIN <= Trunc(unit, t)
  {
  }

  lemma CalendarStartFits(unit: TimeUnit, t: int, k: int)
    requires unit.Year? || unit.Month?
    requires k == if unit.Year? then -290_307 else 12 * -290_307
    ensures UnitStart(unit, k) <= t ==> I64_MIN <= Trunc(unit, t)
    ensures t < UnitStart(unit, k) ==> Trunc(unit, t) < I64_MIN
  {
    hide UnitStart, UnitIndex;
    EdgeStarts();
    var i := UnitIndex(unit, t);
    IndexBrackets(unit, t);
    if UnitStart(unit, k) <= t {
      if i < k { StartsDoNotDecrease(unit, i + 1, k); }
      StartsDoNotDecrease(unit, k, i);
    } else {
      if k <= i { StartsDoNotDecrease(unit, k, i); }
      StartsDoNotDecrease(unit, i, k - 1);
    }
  }

  lemma EdgeStarts()
    ensures I64_MIN <= UnitStart(Year, -290_307) == UnitStart(Month, 12 * -290_307)
    ensures UnitStart(Year, -290_308) < I64_MIN
    ensures UnitStart(Month, 12 * -290_307 - 1) < I64_MIN
    ensures UnitStart(Year, 294_247) == UnitStart(Month, 12 * 294_247) <= I64_MAX
    ensures I64_MAX < UnitStart(Year, 294_248)
    ensures I64_MAX < UnitStart(Month, 12 * 294_247 + 1)
  {
    hide DaysFromCivil;
    EdgeYears();
    EdgeYearsAbove();
    JanuaryStart(-290_307);
    JanuaryStart(294_247);
    assert (12 * -290_307 - 1) / 12 == -290_308 && (12 * -290_307 - 1) % 12 == 11;
    assert (12 * 294_247 + 1) / 12 == 294_247 && (12 * 294_247 + 1) % 12 == 1;
  }

  /** `next_unit` on a unit's start is the next unit's start, when that fits. */
  lemma NextUnitExact(unit: TimeUnit, k: int)
    requires Truncates(unit) && FloorDivRemFits(UnitStart(unit, k))
    ensures NextUnit(unit, UnitStart(unit, k)) == Fit(UnitStart(unit, k + 1))
  {
    hide DaysFromCivil, CivilFromDays;
    IndexOfStart(unit, k);
    match unit
    case Year => MidnightMicros(k + 1, 1, 1);
    case Month =>
      var c := CivilFromMicros(UnitStart(Month, k));
      CivilRoundTrip(UnitStart(Month, k));
      assert k == 12 * c.year + c.month - 1;
      if c.month == 12 {
        assert (k + 1) / 12 == c.year + 1 && (k + 1) % 12 == 0;
        MidnightMicros(c.year + 1, 1, 1);
      } else {
        assert (k + 1) / 12 == c.year && (k + 1) % 12 == c.month;
        MidnightMicros(c.year, c.month + 1, 1);
      }
    case _ =>
  }

  /** `date_trunc` is exact from `FirstWhole` on and overflows below it. */
  lemma DateTruncExact(unit: TimeUnit, t: int)
    requires Truncates(unit) && IsI64(t)
    ensures DateTrunc(unit, t) == if FirstWhole(unit) <= t then Ok(Trunc(unit, t)) else Overflows
  {
    hide DaysFromCivil, CivilFromDays, FirstWhole;
    StartFits(unit, t);
    IndexBrackets(unit, t);
    if FloorDivRemFits(t) {
      CivilRoundTrip(t);
      var c := CivilFromMicros(t);
      match unit
      case Year => MidnightMicros(c.year, 1, 1);
      case Month =>
        var k := 12 * c.year + c.month - 1;
        assert k / 12 == c.year && k % 12 == c.month - 1;
        MidnightMicros(c.year, c.month, 1);
      case Day => MidnightMicros(c.year, c.month, c.day); DaysAfterCivil(t / MICROS_PER_DAY);
      case _ =>
    }
  }

  lemma StartDayFits(unit: TimeUnit, t: int)
    requires Truncates(unit) && IsI64(t) && FirstWhole(unit) <= t
    ensures FloorDivRemFits(Trunc(unit, t)) && IsI64(Trunc(unit, t))
  {
    hide Trunc, FirstWhole, FloorDivRemFits;
    StartFits(unit, t);
    IndexBrackets(unit, t);
    if unit.Year? || unit.Month? { CalendarStartIsDay(unit, t); } else { ClockStartFits(unit, t); }
  }

  lemma CalendarStartIsDay(unit: TimeUnit, t: int)
    requires (unit.Year? || unit.Month?) && IsI64(Trunc(unit, t))
    ensures FloorDivRemFits(Trunc(unit, t))
  {
    hide DaysFromCivil, CivilFromDays;
    var i := UnitIndex(unit, t);
    DayMultiple(if unit.Year? then DaysFromCivil(i, 1, 1) else DaysFromCivil(i / 12, i % 12 + 1, 1));
  }

  lemma ClockStartFits(unit: TimeUnit, t: int)
    requires Truncates(unit) && !unit.Year? && !unit.Month?
    requires IsI64(t) && FloorDivRemFits(t) && IsI64(Trunc(unit, t)) && Trunc(unit, t) <= t
    ensures FloorDivRemFits(Trunc(unit, t))
  {
    hide Trunc;
    StartInDay(unit, t);
    DayFits(t);
    DayFits(Trunc(unit, t));
    SameDay(t, Trunc(unit, t));
  }

  lemma SameDay(t: int, s: int)
    requires t / MICROS_PER_DAY * MICROS_PER_DAY <= s <= t
    ensures -106_751_991 * MICROS_PER_DAY <= t ==> -106_751_991 * MICROS_PER_DAY <= s
  {
  }

  lemma DayMultiple(days: int)
    ensures days * MICROS_PER_DAY / MICROS_PER_DAY == days
  {
  }

  lemma StartInDay(unit: TimeUnit, t: int)
    requires unit.Day? || unit.Hour? || unit.Minute? || unit.Second?
    ensures t / MICROS_PER_DAY * MICROS_PER_DAY <= Trunc(unit, t)
  {
    if unit.Hour? { assert t / MICROS_PER_HOUR >= 24 * (t / MICROS_PER_DAY); }
    if unit.Minute? { assert t / MICROS_PER_MINUTE >= 1440 * (t / MICROS_PER_DAY); }
    if unit.Second? { assert t / MICROS_PER_SECOND >= 86400 * (t / MICROS_PER_DAY); }
  }

  lemma EndFits(unit: TimeUnit, t: int)
    requires Truncates(unit) && IsI64(t)
    ensures UnitEnd(unit, t) <= I64_MAX <==> t < EndWhole(unit)
  {
    hide DaysFromCivil, CivilFromDays;
    match unit
    case Year => CalendarEndFits(Year, t, 294_247);
    case Month => EdgeStarts(); CalendarEndFits(Month, t, 12 * 294_247);
    case _ => ClockEndFits(unit, t);
  }

  lemma ClockEndFits(unit: TimeUnit, t: int)
    requires Truncates(unit) && !unit.Year? && !unit.Month?
    ensures UnitEnd(unit, t) <= I64_MAX <==> t < EndWhole(unit)
  {
    hide DaysFromCivil, CivilFromDays;
    match unit
    case Day =>
    case Hour =>
    case Minute =>
    case Second =>
  }

  lemma CalendarEndFits(unit: TimeUnit, t: int, k: int)
    requires unit.Year? || unit.Month?
    requires k == if unit.Year? then 294_247 else 12 * 294_247
    requires IsI64(t)
    ensures UnitEnd(unit, t) <= I64_MAX <==> t < UnitStart(unit, k)
  {
    hide UnitStart, UnitIndex;
    EdgeStarts();
    var i := UnitIndex(unit, t);
    IndexBrackets(unit, t);
    if t < UnitStart(unit, k) {
      if k <= i { StartsDoNotDecrease(unit, k, i); }
      StartsDoNotDecrease(unit, i + 1, k);
    } else {
      if i < k { StartsDoNotDecrease(unit, i + 1, k); }
      StartsDoNotDecrease(unit, k + 1, i + 1);
    }
  }

  // ------------------------------------------------------------ the theorems

  /** Truncating and stepping to the next unit answers without overflow exactly
      on the instants whose unit lies wholly inside i64, and brackets `t`. */
  lemma WholeUnit(unit: TimeUnit, t: int)
    requires Truncates(unit) && IsI64(t)
    ensures var start := DateTrunc(unit, t);
            && (start.Ok? <==> FirstWhole(unit) <= t)
            && (start.Ok? ==>
                  var end := NextUnit(unit, start.value);
                  && (end.Ok? <==> t < EndWhole(unit))
                  && (end.Ok? ==> start.value <= t < end.value))
    ensures FirstWhole(unit) <= t ==> DateTrunc(unit, t) == Ok(Trunc(unit, t))
    ensures FirstWhole(unit) <= t < EndWhole(unit) ==>
              NextUnit(unit, Trunc(unit, t)) == Ok(UnitEnd(unit, t))
    ensures !DateTrunc(unit, t).Refused? && (FirstWhole(unit) <= t ==> !NextUnit(unit, Trunc(unit, t)).Refused?)
  {
    hide UnitStart, UnitIndex, FirstWhole, EndWhole, DateTrunc, NextUnit, FloorDivRemFits;
    DateTruncExact(unit, t);
    if FirstWhole(unit) <= t {
      StartDayFits(unit, t);
      NextUnitExact(unit, UnitIndex(unit, t));
      EndFits(unit, t);
      IndexBrackets(unit, t);
    }
  }

  /** `date_trunc(u, t) = v` is ONE half-open range: for any truncated `v` the
      pre-image of `v` is `[v, next_unit(u, v))`. */
  lemma TruncationIsOneRange(unit: TimeUnit, t: int, v: int)
    requires Truncates(unit) && IsI64(t) && IsI64(v)
    requires DateTrunc(unit, v) == Ok(v) && NextUnit(unit, v).Ok? && DateTrunc(unit, t).Ok?
    ensures DateTrunc(unit, t) == Ok(v) <==> v <= t < NextUnit(unit, v).value
  {
    hide UnitStart, UnitIndex, FirstWhole, EndWhole, DateTrunc, NextUnit;
    WholeUnit(unit, t);
    WholeUnit(unit, v);
    IndexIsRange(unit, t, UnitIndex(unit, v));
    if Trunc(unit, t) == v {
      IndexOfStart(unit, UnitIndex(unit, t));
      IndexIsRange(unit, t, UnitIndex(unit, t));
    }
  }

  /** Truncation is idempotent and monotone. */
  lemma TruncationIsAClosure(unit: TimeUnit, s: int, t: int)
    requires Truncates(unit) && IsI64(s) && IsI64(t) && s <= t
    requires DateTrunc(unit, s).Ok?
    ensures DateTrunc(unit, DateTrunc(unit, s).value) == DateTrunc(unit, s)
    ensures DateTrunc(unit, t).Ok? && DateTrunc(unit, s).value <= DateTrunc(unit, t).value
  {
    hide UnitStart, UnitIndex, FirstWhole, EndWhole, DateTrunc, NextUnit, FloorDivRemFits;
    WholeUnit(unit, s);
    WholeUnit(unit, t);
    IndexMonotone(unit, s, t);
    StartsDoNotDecrease(unit, UnitIndex(unit, s), UnitIndex(unit, t));
    IndexOfStart(unit, UnitIndex(unit, s));
    IndexBrackets(unit, s);
    FirstWholeIsStart(unit);
    StartDayFits(unit, s);
    DateTruncExact(unit, Trunc(unit, s));
    StartFits(unit, Trunc(unit, s));
  }

  lemma FirstWholeIsStart(unit: TimeUnit)
    requires Truncates(unit)
    ensures IsI64(FirstWhole(unit))
  {
    hide DaysFromCivil;
    EdgeYears();
  }

  predicate Coarser(a: TimeUnit, b: TimeUnit) {
    match a
    case Year => b.Month? || b.Day? || b.Hour? || b.Minute? || b.Second?
    case Month => b.Day? || b.Hour? || b.Minute? || b.Second?
    case Day => b.Hour? || b.Minute? || b.Second?
    case Hour => b.Minute? || b.Second?
    case Minute => b.Second?
    case _ => false
  }

  /** Of two different units one is the coarser. */
  lemma CoarserIsTotal(a: TimeUnit, b: TimeUnit)
    requires Truncates(a) && Truncates(b) && a != b
    ensures Coarser(a, b) != Coarser(b, a)
  {
  }

  /** Every coarse unit starts where a finer unit starts. */
  lemma CoarseStartIsFine(coarse: TimeUnit, fine: TimeUnit, k: int)
    requires Coarser(coarse, fine)
    ensures Trunc(fine, UnitStart(coarse, k)) == UnitStart(coarse, k)
  {
    hide DaysFromCivil, CivilFromDays;
    if fine.Month? {
      JanuaryStart(k);
      IndexOfStart(Month, 12 * k);
    } else if coarse.Hour? {
      IndexOfStart(fine, if fine.Minute? then 60 * k else 3600 * k);
    } else if coarse.Minute? {
      IndexOfStart(fine, 60 * k);
    } else {
      var days := if coarse.Year? then DaysFromCivil(k, 1, 1)
                  else if coarse.Month? then DaysFromCivil(k / 12, k % 12 + 1, 1)
                  else k;
      assert UnitStart(coarse, k) == days * MICROS_PER_DAY;
      DayStartIsFine(fine, days);
    }
  }

  lemma DayStartIsFine(fine: TimeUnit, days: int)
    requires fine.Day? || Coarser(Day, fine)
    ensures Trunc(fine, days * MICROS_PER_DAY) == days * MICROS_PER_DAY
  {
    var m := if fine.Day? then days else if fine.Hour? then 24 * days
             else if fine.Minute? then 1440 * days else 86400 * days;
    assert UnitStart(fine, m) == days * MICROS_PER_DAY;
    IndexOfStart(fine, m);
  }

  /** Truncating first to a finer unit changes nothing. */
  lemma TruncationAbsorbsFiner(coarse: TimeUnit, fine: TimeUnit, t: int)
    requires Coarser(coarse, fine) && IsI64(t) && DateTrunc(coarse, t).Ok?
    ensures DateTrunc(fine, t).Ok?
    ensures DateTrunc(coarse, DateTrunc(fine, t).value) == DateTrunc(coarse, t)
  {
    hide UnitStart, UnitIndex, DateTrunc, NextUnit, FloorDivRemFits;
    FirstWholesOrdered();
    WholeUnit(coarse, t);
    WholeUnit(fine, t);
    var c, f := Trunc(coarse, t), Trunc(fine, t);
    IndexBrackets(coarse, t);
    IndexBrackets(fine, t);
    CoarseStartIsFine(coarse, fine, UnitIndex(coarse, t));
    IndexMonotone(fine, c, t);
    StartsDoNotDecrease(fine, UnitIndex(fine, c), UnitIndex(fine, t));
    assert c <= f <= t;
    IndexIsRange(coarse, f, UnitIndex(coarse, t));
    StartFits(coarse, t);
    StartFits(coarse, c);
    IndexOfStart(coarse, UnitIndex(coarse, t));
    StartDayFits(coarse, t);
    DateTruncExact(coarse, f);
  }

  lemma FirstWholesOrdered()
    ensures -106_751_991 * MICROS_PER_DAY <= UnitStart(Year, -290_307)
  {
    hide DaysFromCivil;
    EdgeYears();
  }
}
