/** The proleptic Gregorian calendar: Hinnant's day-number conversion in both
    directions, related to a definition of the calendar that counts days one at
    a time and knows nothing of eras. */
module Calendar {

  datatype Date = Date(year: int, month: int, day: int)

  // ---------------------------------------------------------------- reference

  predicate IsLeap(year: int) {
    year % 4 == 0 && (year % 100 != 0 || year % 400 == 0)
  }

  function DaysInMonth(year: int, month: int): int {
    if month == 2 then (if IsLeap(year) then 29 else 28)
    else if month == 4 || month == 6 || month == 9 || month == 11 then 30
    else 31
  }

  predicate ValidDate(c: Date) {
    1 <= c.month <= 12 && 1 <= c.day <= DaysInMonth(c.year, c.month)
  }

  /** The day after a valid date. */
  function NextDay(c: Date): Date {
    if c.day < DaysInMonth(c.year, c.month) then Date(c.year, c.month, c.day + 1)
    else if c.month < 12 then Date(c.year, c.month + 1, 1)
    else Date(c.year + 1, 1, 1)
  }

  /** Dates in calendar order. */
  predicate Before(a: Date, b: Date) {
    || a.year < b.year
    || (a.year == b.year && a.month < b.month)
    || (a.year == b.year && a.month == b.month && a.day < b.day)
  }

  // ---------------------------------------------------------------- the code

  /** Division that truncates toward zero. */
  function TruncDiv(a: int, b: int): int
    requires b > 0
  {
    if a >= 0 then a / b else -((-a) / b)
  }

  /** Days before March-based year `yoe` of an era. */
  function EraYearDays(yoe: int): int {
    365 * yoe + yoe / 4 - yoe / 100
  }

  /** Days before March-based month `mp`. */
  function MonthStart(mp: int): int {
    (153 * mp + 2) / 5
  }

  /** The March-based month holding day `doy` of a March-based year. */
  function MonthIndex(doy: int): int {
    (5 * doy + 2) / 153
  }

  /** The March-based year of an era holding day `doe`. */
  function YearOfEra(doe: int): int {
    (doe - doe / 1460 + doe / 36524 - doe / 146096) / 365
  }

  /** `days_from_civil`. */
  function DaysFromCivil(year: int, month: int, day: int): int {
    var y := if month <= 2 then year - 1 else year;
    var era := TruncDiv(if y >= 0 then y else y - 399, 400);
    var yoe := y - era * 400;
    var doy := MonthStart(if month > 2 then month - 3 else month + 9) + day - 1;
    var doe := EraYearDays(yoe) + doy;
    era * 146097 + doe - 719468
  }

  /** `civil_from_days`. */
  function CivilFromDays(days: int): Date {
    var z := days + 719468;
    var era := TruncDiv(if z >= 0 then z else z - 146096, 146097);
    var doe := z - era * 146097;
    var yoe := YearOfEra(doe);
    var y := yoe + era * 400;
    var doy := doe - EraYearDays(yoe);
    var mp := MonthIndex(doy);
    var d := doy - MonthStart(mp) + 1;
    var m := if mp < 10 then mp + 3 else mp - 9;
    Date(if m <= 2 then y + 1 else y, m, d)
  }

  function Days(c: Date): int {
    DaysFromCivil(c.year, c.month, c.day)
  }

  // ------------------------------------------- the year-of-era decomposition

  /** Days before the year after `yoe`; the last year of an era has one more
      leap day than the per-year count gives it. */
  function EraYearEnd(yoe: int): int {
    if yoe == 399 then 146097 else EraYearDays(yoe + 1)
  }

  /** An era day written as century `c`, four-year cycle `q` and day `s` in it. */
  lemma EraYearOfParts(c: int, q: int, s: int)
    requires 0 <= c < 4 && 0 <= q < 25 && 0 <= s < 1461
    requires q == 24 ==> s < 1460
    ensures var doe := 36524 * c + 1461 * q + s;
            YearOfEra(doe) == 100 * c + 4 * q + (if s < 1095 then s / 365 else 3)
  {
    var doe := 36524 * c + 1461 * q + s;
    var e := if 24 * c + q + s >= 1460 then 1 else 0;
    assert doe == 1460 * (25 * c + q + e) + (24 * c + q + s - 1460 * e);
    assert doe / 1460 == 25 * c + q + e;
    assert doe / 36524 == c;
    assert doe / 146096 == 0;
    assert doe - doe / 1460 + doe / 36524 - doe / 146096 == 365 * (100 * c + 4 * q) + s - e;
  }

  lemma EraYearDaysOfParts(c: int, q: int, k: int)
    requires 0 <= c < 4 && 0 <= q < 25 && 0 <= k < 4
    ensures EraYearDays(100 * c + 4 * q + k) == 36524 * c + 1461 * q + 365 * k
    ensures EraYearEnd(100 * c + 4 * q + k) ==
            36524 * c + 1461 * q + 365 * (k + 1)
            + (if k == 3 && (q < 24 || c == 3) then 1 else 0)
  {
    var y := 100 * c + 4 * q + k;
    assert y / 4 == 25 * c + q;
    assert y / 100 == c;
    assert (y + 1) / 4 == 25 * c + q + (if k == 3 then 1 else 0);
    assert (y + 1) / 100 == c + (if k == 3 && q == 24 then 1 else 0);
  }

  lemma EraParts(doe: int) returns (c: int, q: int, s: int)
    requires 0 <= doe < 146096
    ensures 0 <= c < 4 && 0 <= q < 25 && 0 <= s < 1461 && (q == 24 ==> s < 1460)
    ensures doe == 36524 * c + 1461 * q + s
  {
    c := doe / 36524;
    var d := doe - 36524 * c;
    assert 0 <= d < 36524;
    q := d / 1461;
    s := d - 1461 * q;
  }

  /** The era-year formula finds the year whose days contain `doe`. */
  lemma YearOfEraBrackets(doe: int)
    requires 0 <= doe < 146097
    ensures 0 <= YearOfEra(doe) < 400
    ensures EraYearDays(YearOfEra(doe)) <= doe < EraYearEnd(YearOfEra(doe))
  {
    if doe == 146096 {
      assert YearOfEra(doe) == 399;
    } else {
      hide YearOfEra, EraYearDays, EraYearEnd;
      var c, q, s := EraParts(doe);
      var k := if s < 1095 then s / 365 else 3;
      EraYearOfParts(c, q, s);
      EraYearDaysOfParts(c, q, k);
    }
  }

  /** The month formula finds the March-based month whose days contain `doy`. */
  lemma MonthBrackets(doy: int)
    requires 0 <= doy < 366
    ensures 0 <= MonthIndex(doy) < 12
    ensures MonthStart(MonthIndex(doy)) <= doy < MonthStart(MonthIndex(doy) + 1)
  {
  }

  lemma TruncDivFloors(a: int, b: int)
    requires b == 400 || b == 146097
    ensures TruncDiv(if a >= 0 then a else a - (b - 1), b) == a / b
    ensures a - a / b * b == a % b
  {
  }

  // ------------------------------------------------------ an era-free reading

  /** Days before March-based year `y`, counted with no era. */
  function YearDays(y: int): int {
    365 * y + y / 4 - y / 100 + y / 400
  }

  lemma EraFree(era: int, yoe: int)
    requires 0 <= yoe < 400
    ensures era * 146097 + EraYearDays(yoe) == YearDays(400 * era + yoe)
    ensures era * 146097 + EraYearEnd(yoe) == YearDays(400 * era + yoe + 1)
  {
    var y := 400 * era + yoe;
    assert y / 4 == 100 * era + yoe / 4;
    assert y / 100 == 4 * era + yoe / 100;
    assert y / 400 == era;
    assert (y + 1) / 4 == 100 * era + (yoe + 1) / 4;
    assert (y + 1) / 100 == 4 * era + (yoe + 1) / 100;
    assert (y + 1) / 400 == if yoe == 399 then era + 1 else era;
  }

  lemma YearDaysLength(y: int)
    ensures YearDays(y + 1) - YearDays(y) == if IsLeap(y + 1) then 366 else 365
  {
    assert (y + 1) / 4 - y / 4 == if (y + 1) % 4 == 0 then 1 else 0;
    assert (y + 1) / 100 - y / 100 == if (y + 1) % 100 == 0 then 1 else 0;
    assert (y + 1) / 400 - y / 400 == if (y + 1) % 400 == 0 then 1 else 0;
    MultiplesNest(y + 1);
  }

  lemma MultiplesNest(y: int)
    ensures y % 400 == 0 ==> y % 100 == 0
    ensures y % 100 == 0 ==> y % 4 == 0
  {
    if y % 400 == 0 { HundredDivides(y / 400); }
    if y % 100 == 0 { FourDivides(y / 100); }
  }

  lemma HundredDivides(a: int)
    ensures (400 * a) % 100 == 0
  {
  }

  lemma FourDivides(b: int)
    ensures (100 * b) % 4 == 0
  {
  }

  lemma YearDaysIncrease(a: int, b: int)
    requires a < b
    ensures YearDays(a + 1) <= YearDays(b)
  {
    assert (a + 1) / 4 <= b / 4;
    assert (a + 1) / 400 <= b / 400;
    assert b / 100 - (a + 1) / 100 <= b - (a + 1);
  }

  /** The date of March-based year `y`, month `mp` and day `day`. */
  function DateOfParts(y: int, mp: int, day: int): Date {
    if mp < 10 then Date(y, mp + 3, day) else Date(y + 1, mp - 9, day)
  }

  /** What it is for a day to lie in month `mp` of March-based year `y`. */
  predicate InMonth(y: int, mp: int, day: int) {
    && 0 <= mp < 12 && 1 <= day
    && (mp < 11 ==> MonthStart(mp) + day - 1 < MonthStart(mp + 1))
    && MonthStart(mp) + day - 1 < YearDays(y + 1) - YearDays(y)
  }

  lemma InMonthIsValid(y: int, mp: int, day: int)
    requires 0 <= mp < 12
    ensures InMonth(y, mp, day) <==> ValidDate(DateOfParts(y, mp, day))
  {
    YearDaysLength(y);
    var c := DateOfParts(y, mp, day);
    var leap := IsLeap(c.year);
    hide IsLeap, YearDays;
    assert mp == 11 <==> c.month == 2;
  }

  lemma DaysOfParts(y: int, mp: int, day: int)
    requires 0 <= mp < 12
    ensures Days(DateOfParts(y, mp, day)) == YearDays(y) + MonthStart(mp) + day - 1 - 719468
  {
    hide MonthStart, EraYearDays, TruncDiv, YearDays, EraYearEnd;
    TruncDivFloors(y, 400);
    EraFree(y / 400, y % 400);
  }

  /** `civil_from_days` in March-based parts. */
  lemma CivilOfParts(days: int) returns (y: int, mp: int, day: int)
    ensures InMonth(y, mp, day) && CivilFromDays(days) == DateOfParts(y, mp, day)
    ensures days == YearDays(y) + MonthStart(mp) + day - 1 - 719468
  {
    hide MonthStart, MonthIndex, EraYearDays, EraYearEnd, YearOfEra, TruncDiv, YearDays, IsLeap;
    var z := days + 719468;
    TruncDivFloors(z, 146097);
    var era, doe := z / 146097, z % 146097;
    YearOfEraBrackets(doe);
    var yoe := YearOfEra(doe);
    y := 400 * era + yoe;
    EraFree(era, yoe);
    YearDaysLength(y);
    var doy := doe - EraYearDays(yoe);
    MonthBrackets(doy);
    mp := MonthIndex(doy);
    day := doy - MonthStart(mp) + 1;
  }

  /** A valid date in March-based parts. */
  lemma PartsOf(c: Date) returns (y: int, mp: int)
    requires ValidDate(c)
    ensures InMonth(y, mp, c.day) && c == DateOfParts(y, mp, c.day)
    ensures Days(c) == YearDays(y) + MonthStart(mp) + c.day - 1 - 719468
  {
    hide MonthStart, YearDays, InMonth, Days;
    mp := if c.month > 2 then c.month - 3 else c.month + 9;
    y := if c.month > 2 then c.year else c.year - 1;
    DaysOfParts(y, mp, c.day);
    InMonthIsValid(y, mp, c.day);
  }

  // ------------------------------------------------------------ the theorems

  /** Every day number names a date that exists, and the date names it back. */
  lemma DaysAfterCivil(days: int)
    ensures ValidDate(CivilFromDays(days))
    ensures Days(CivilFromDays(days)) == days
  {
    hide CivilFromDays, Days, YearDays, MonthStart, ValidDate;
    var y, mp, day := CivilOfParts(days);
    InMonthIsValid(y, mp, day);
    DaysOfParts(y, mp, day);
  }

  /** The day number orders the dates that exist as the calendar does. */
  lemma DaysMonotone(a: Date, b: Date)
    requires ValidDate(a) && ValidDate(b) && Before(a, b)
    ensures Days(a) < Days(b)
  {
    hide Days, YearDays, MonthStart, ValidDate;
    var ya, ma := PartsOf(a);
    var yb, mb := PartsOf(b);
    if ya < yb {
      YearDaysIncrease(ya, yb);
      MonthStartIncreases(0, mb);
    } else {
      assert ya == yb;
      MonthStartIncreases(ma, mb);
    }
  }

  lemma MonthStartIncreases(a: int, b: int)
    requires a <= b
    ensures MonthStart(a) <= MonthStart(b) && (a < b ==> MonthStart(a + 1) <= MonthStart(b))
    ensures MonthStart(0) == 0
  {
  }

  /** Every date that exists survives the trip through its day number. */
  lemma CivilAfterDays(c: Date)
    requires ValidDate(c)
    ensures CivilFromDays(Days(c)) == c
  {
    hide CivilFromDays, Days, ValidDate;
    var n := Days(c);
    DaysAfterCivil(n);
    var r := CivilFromDays(n);
    if Before(r, c) { DaysMonotone(r, c); }
    if Before(c, r) { DaysMonotone(c, r); }
  }

  lemma CivilMonotone(a: int, b: int)
    requires a < b
    ensures Before(CivilFromDays(a), CivilFromDays(b))
  {
    hide CivilFromDays, Days, ValidDate;
    DaysAfterCivil(a);
    DaysAfterCivil(b);
    var ca, cb := CivilFromDays(a), CivilFromDays(b);
    if Before(cb, ca) { DaysMonotone(cb, ca); }
  }

  /** The round-trip test `parse_timestamp` applies accepts a month and day in
      their written ranges exactly when the day exists in that month. */
  lemma RoundTripTestsExistence(c: Date)
    requires 1 <= c.month <= 12 && 1 <= c.day <= 31
    ensures CivilFromDays(Days(c)) == c <==> c.day <= DaysInMonth(c.year, c.month)
  {
    hide CivilFromDays, Days, DaysInMonth;
    DaysAfterCivil(Days(c));
    if ValidDate(c) { CivilAfterDays(c); }
  }

  lemma NextDayIsNext(c: Date, other: Date)
    requires ValidDate(c)
    ensures ValidDate(NextDay(c)) && Before(c, NextDay(c))
    ensures ValidDate(other) && Before(c, other) ==> other == NextDay(c) || Before(NextDay(c), other)
  {
    hide IsLeap;
  }

  /** Counting one day moves to the next date. */
  lemma DaysOfNextDay(c: Date)
    requires ValidDate(c)
    ensures ValidDate(NextDay(c)) && Days(NextDay(c)) == Days(c) + 1
  {
    hide CivilFromDays, Days, ValidDate, NextDay, Before;
    var after := CivilFromDays(Days(c) + 1);
    DaysAfterCivil(Days(c) + 1);
    CivilAfterDays(c);
    CivilMonotone(Days(c), Days(c) + 1);
    NextDayIsNext(c, after);
    DaysMonotone(c, NextDay(c));
    if Before(NextDay(c), after) { DaysMonotone(NextDay(c), after); }
  }

  lemma CivilSteps(n: int)
    ensures CivilFromDays(n + 1) == NextDay(CivilFromDays(n))
  {
    hide CivilFromDays, Days, ValidDate, NextDay;
    DaysAfterCivil(n);
    DaysOfNextDay(CivilFromDays(n));
    CivilAfterDays(NextDay(CivilFromDays(n)));
  }

  /** `civil_from_days` IS the calendar: it is the only enumeration of dates
      that puts 1970-01-01 at day 0 and steps from each date to the next. */
  lemma CivilFromDaysIsTheCalendar(g: int -> Date, n: int)
    requires g(0) == Date(1970, 1, 1)
    requires forall k :: ValidDate(g(k)) && g(k + 1) == NextDay(g(k))
    ensures g(n) == CivilFromDays(n)
    decreases if n < 0 then -n else n
  {
    hide CivilFromDays, Days, ValidDate, NextDay;
    EpochIsDayZero();
    CivilAfterDays(g(n));
    if n > 0 {
      CivilFromDaysIsTheCalendar(g, n - 1);
      assert g(n - 1 + 1) == NextDay(g(n - 1));
      CivilSteps(n - 1);
    } else if n < 0 {
      CivilFromDaysIsTheCalendar(g, n + 1);
      assert g(n + 1) == NextDay(g(n));
      DaysOfNextDay(g(n));
      DaysAfterCivil(n + 1);
    }
  }

  lemma EpochIsDayZero()
    ensures Days(Date(1970, 1, 1)) == 0
  {
  }
}
