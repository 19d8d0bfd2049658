/** Reading and printing ISO-8601 timestamps. */
module Timestamp {
  import opened Calendar
  import opened TimeUnits
  import opened Text

  // ------------------------------------------------------ what the parser reads

  /** The time of day, and the text after it. */
  datatype ClockRead = ClockRead(hour: int, minute: int, second: int, micro: int, rest: string)

  datatype ZoneRead = ZoneRead(offset: int, rest: string)

  /** A fraction of `digits` scaled to microseconds: short ones padded, the
      nanosecond digits dropped. */
  function FractionMicros(digits: string): int {
    if |digits| <= 6 then Value(digits) * Pow10(6 - |digits|)
    else Value(digits) / Pow10(|digits| - 6)
  }

  /** The microseconds a fraction means: its first six digits, zeros standing in
      for those not written. */
  function SixDigits(digits: string): int { Value((digits + "000000")[..6]) }

  /** The code scales every fraction to what it means. */
  lemma FractionIsSixDigits(digits: string)
    requires AllDigits(digits) && 0 < |digits| <= 9
    ensures FractionMicros(digits) == SixDigits(digits)
  {
    hide Value;
    var n := |digits|;
    if n <= 6 {
      var zeros := "000000"[..6 - n];
      assert (digits + "000000")[..6] == digits + zeros;
      ValueOfConcat(digits, zeros);
      NoValue(zeros);
    } else {
      var front, back := digits[..6], digits[6..];
      assert digits == front + back && (digits + "000000")[..6] == front;
      ValueOfConcat(front, back);
      ValueBound(back);
      Quotient(Value(front), Value(back), Pow10(n - 6));
    }
  }

  lemma {:induction false} NoValue(zeros: string)
    requires forall i :: 0 <= i < |zeros| ==> zeros[i] == '0'
    ensures Value(zeros) == 0
  {
    if zeros != "" { NoValue(zeros[..|zeros| - 1]); }
  }

  /** The same as an inequality: `0.digits` of a second, rounded down to the
      microsecond. */
  lemma FractionRoundsDown(digits: string)
    requires AllDigits(digits) && 0 < |digits| <= 9
    ensures var f := FractionMicros(digits);
            f * Pow10(|digits|) <= Value(digits) * 1_000_000 < (f + 1) * Pow10(|digits|)
  {
    hide Value;
    ValueBound(digits);
    var n, v, f := |digits|, Value(digits), FractionMicros(digits);
    assert Pow10(0) == 1 && Pow10(1) == 10 && Pow10(2) == 100 && Pow10(3) == 1000 && Pow10(4) == 10_000;
    assert Pow10(5) == 100_000 && Pow10(6) == 1_000_000 && Pow10(7) == 10_000_000;
    assert Pow10(8) == 100_000_000 && Pow10(9) == 1_000_000_000;
  }

  /** An optional `.ffffff` after the seconds. */
  function ReadFraction(rest: string): Option<(int, string)> {
    if rest == "" || rest[0] != '.' then Some((0, rest))
    else
      var digits := Min(DigitRun(rest[1..]), 9);
      if digits == 0 then None
      else Some((FractionMicros(rest[1..1 + digits]), rest[1 + digits..]))
  }

  /** An optional `:SS[.ffffff]` after the minutes. */
  function ReadSeconds(rest: string): Option<(int, int, string)> {
    if rest == "" || rest[0] != ':' then Some((0, 0, rest))
    else if |rest| < 3 then None
    else
      var second, fraction := ParseInt(rest[1..3]), ReadFraction(rest[3..]);
      if second.None? || fraction.None? then None
      else Some((second.value, fraction.value.0, fraction.value.1))
  }

  /** `HH:MM[:SS[.ffffff]]`. */
  function ReadClock(rest: string): Option<ClockRead> {
    if |rest| < 5 || rest[2] != ':' then None
    else
      var hour, minute, tail := ParseInt(rest[0..2]), ParseInt(rest[3..5]), ReadSeconds(rest[5..]);
      if hour.None? || minute.None? || tail.None? then None
      else Some(ClockRead(hour.value, minute.value, tail.value.0, tail.value.1, tail.value.2))
  }

  /** The zone suffix: nothing, `Z`, `+HH`, `+HHMM` or `+HH:MM`. */
  function ReadZone(rest: string): Option<ZoneRead> {
    if rest == "" then Some(ZoneRead(0, rest))
    else if rest[0] == 'Z' || rest[0] == 'z' then Some(ZoneRead(0, rest[1..]))
    else if rest[0] == '+' || rest[0] == '-' then
      var sign := if rest[0] == '-' then -1 else 1;
      var body := rest[1..];
      if |body| < 2 then None
      else
        var oh := ParseInt(body[0..2]);
        var (om, used) :=
          if |body| >= 5 && body[2] == ':' then (ParseInt(body[3..5]), 6)
          else if |body| >= 4 then (ParseInt(body[2..4]), 5)
          else (Some(0), 3);
        if oh.None? || om.None? then None
        else Some(ZoneRead(sign * (oh.value * MICROS_PER_HOUR + om.value * MICROS_PER_MINUTE), rest[used..]))
    else Some(ZoneRead(0, rest))
  }

  function ReadTail(rest: string): Option<(ClockRead, ZoneRead)> {
    if rest == "" then Some((ClockRead(0, 0, 0, 0, ""), ZoneRead(0, "")))
    else
      var clock :=
        if rest[0] == 'T' || rest[0] == 't' || rest[0] == ' ' then ReadClock(rest[1..])
        else Some(ClockRead(0, 0, 0, 0, rest));
      if clock.None? then None
      else
        var zone := ReadZone(clock.value.rest);
        if zone.None? then None else Some((clock.value, zone.value))
  }

  /** `parse_timestamp`; `None` stands for the one error it raises. */
  function ParseTimestamp(text: string): Option<int> {
    var s := Trim(text);
    if |s| < 10 || s[4] != '-' || s[7] != '-' then None
    else
      var year, month, day := ParseInt(s[0..4]), ParseInt(s[5..7]), ParseInt(s[8..10]);
      if year.None? || month.None? || day.None? then None
      else if !(1 <= month.value <= 12) || !(1 <= day.value <= 31) then None
      else
        var tail := ReadTail(s[10..]);
        if tail.None? then None
        else
          var (c, z) := tail.value;
          if Trim(z.rest) != "" then None
          else if !(0 <= c.hour <= 23) || !(0 <= c.minute <= 59) || !(0 <= c.second <= 60) then None
          else
            var days := DaysFromCivil(year.value, month.value, day.value);
            if CivilFromDays(days) != Date(year.value, month.value, day.value) then None
            else Some(days * MICROS_PER_DAY + c.hour * MICROS_PER_HOUR + c.minute * MICROS_PER_MINUTE
                      + c.second * MICROS_PER_SECOND + c.micro - z.offset)
  }

  // ------------------------------------------------------- the imperative reader

  /** `digits..6` and `6..digits`: the two scaling loops. */
  method ScaleFraction(digits: string) returns (fraction: int)
    requires AllDigits(digits) && 0 < |digits| <= 9
    ensures fraction == FractionMicros(digits) == SixDigits(digits)
  {
    FractionIsSixDigits(digits);
    hide SixDigits, Value;
    fraction := Value(digits);
    ValueBound(digits);
    var i := |digits|;
    while i < 6
      invariant |digits| <= i && (i <= 6 || i == |digits|)
      invariant |digits| <= 6 ==> fraction == Value(digits) * Pow10(i - |digits|)
      invariant |digits| > 6 ==> fraction == Value(digits)
    {
      ScaleStep(Value(digits), i - |digits|);
      fraction := fraction * 10;
      i := i + 1;
    }
    i := 6;
    while i < |digits|
      invariant 6 <= i && (|digits| <= 6 ==> i == 6 && fraction == FractionMicros(digits))
      invariant |digits| > 6 ==> i <= |digits| && fraction == Value(digits) / Pow10(i - 6)
    {
      DropStep(Value(digits), i - 6);
      fraction := fraction / 10;
      i := i + 1;
    }
  }

  lemma ScaleStep(v: int, k: nat)
    ensures v * Pow10(k) * 10 == v * Pow10(k + 1)
  {
    assert Pow10(k + 1) == 10 * Pow10(k);
    assert v * Pow10(k) * 10 == v * (10 * Pow10(k));
  }

  lemma DropStep(v: nat, k: nat)
    requires k <= 3
    ensures v / Pow10(k) / 10 == v / Pow10(k + 1)
  {
    assert Pow10(0) == 1 && Pow10(1) == 10 && Pow10(2) == 100 && Pow10(3) == 1000 && Pow10(4) == 10_000;
    if k == 1 { assert v / 10 / 10 == v / 100; }
    if k == 2 { assert v / 100 / 10 == v / 1000; }
    if k == 3 { assert v / 1000 / 10 == v / 10_000; }
  }

  /** The clock part of `parse_timestamp`: `rest` shrinks as each part is read. */
  method TakeClock(text: string) returns (r: Option<ClockRead>)
    ensures r == ReadClock(text)
  {
    hide ParseInt, FractionMicros;
    var rest := text;
    if |rest| < 5 || rest[2] != ':' { return None; }
    var hour, minute := ParseInt(rest[0..2]), ParseInt(rest[3..5]);
    if hour.None? || minute.None? { return None; }
    var second, micro := Some(0), 0;
    rest := rest[5..];
    if rest != "" && rest[0] == ':' {
      if |rest| < 3 { return None; }
      second := ParseInt(rest[1..3]);
      if second.None? { return None; }
      rest := rest[3..];
      if rest != "" && rest[0] == '.' {
        var digits := CountDigits(rest[1..]);
        digits := if digits < 9 then digits else 9;
        if digits == 0 { return None; }
        assert rest[1..1 + digits] == rest[1..][..digits];
        micro := ScaleFraction(rest[1..1 + digits]);
        rest := rest[1 + digits..];
      }
    }
    r := Some(ClockRead(hour.value, minute.value, second.value, micro, rest));
  }

  /** `take_while(u8::is_ascii_digit).count()`. */
  method CountDigits(s: string) returns (n: nat)
    ensures n == DigitRun(s)
  {
    n := 0;
    while n < |s| && IsDigit(s[n])
      invariant n <= |s| && DigitRun(s) == n + DigitRun(s[n..])
    {
      assert s[n..][1..] == s[n + 1..];
      n := n + 1;
    }
  }

  /** The zone part of `parse_timestamp`. */
  method TakeZone(text: string) returns (r: Option<ZoneRead>)
    ensures r == ReadZone(text)
  {
    hide ParseInt;
    var rest, offset := text, 0;
    if rest != "" {
      if rest[0] == 'Z' || rest[0] == 'z' {
        rest := rest[1..];
      } else if rest[0] == '+' || rest[0] == '-' {
        var sign := if rest[0] == '-' then -1 else 1;
        var body := rest[1..];
        if |body| < 2 { return None; }
        var oh := ParseInt(body[0..2]);
        var om, used := Some(0), 3;
        if |body| >= 5 && body[2] == ':' {
          om, used := ParseInt(body[3..5]), 6;
        } else if |body| >= 4 {
          om, used := ParseInt(body[2..4]), 5;
        }
        if oh.None? || om.None? { return None; }
        offset := sign * (oh.value * MICROS_PER_HOUR + om.value * MICROS_PER_MINUTE);
        rest := rest[used..];
      }
    }
    r := Some(ZoneRead(offset, rest));
  }

  /** `parse_timestamp` as written. */
  method ReadTimestamp(text: string) returns (r: Option<int>)
    ensures r == ParseTimestamp(text)
  {
    hide DaysFromCivil, CivilFromDays, ParseInt, Trim, ReadClock, ReadZone;
    var s := Trim(text);
    if |s| < 10 || s[4] != '-' || s[7] != '-' { return None; }
    var year, month, day := ParseInt(s[0..4]), ParseInt(s[5..7]), ParseInt(s[8..10]);
    if year.None? || month.None? || day.None? { return None; }
    if !(1 <= month.value <= 12) || !(1 <= day.value <= 31) { return None; }
    var rest := s[10..];
    var clock, zone := Some(ClockRead(0, 0, 0, 0, rest)), Some(ZoneRead(0, rest));
    if rest != "" {
      if rest[0] == 'T' || rest[0] == 't' || rest[0] == ' ' {
        clock := TakeClock(rest[1..]);
        if clock.None? { return None; }
      }
      zone := TakeZone(clock.value.rest);
      if zone.None? { return None; }
    }
    rest := zone.value.rest;
    if Trim(rest) != "" { return None; }
    var hour, minute, second := clock.value.hour, clock.value.minute, clock.value.second;
    if !(0 <= hour <= 23) || !(0 <= minute <= 59) || !(0 <= second <= 60) { return None; }
    var days := DaysFromCivil(year.value, month.value, day.value);
    if CivilFromDays(days) != Date(year.value, month.value, day.value) { return None; }
    r := Some(days * MICROS_PER_DAY + hour * MICROS_PER_HOUR + minute * MICROS_PER_MINUTE
              + second * MICROS_PER_SECOND + clock.value.micro - zone.value.offset);
  }

  // -------------------------------------------------- the documented literals

  datatype ZoneText =
    | NoZone
    | Utc(z: char)
    | Colon(sign: char, hh: nat, mm: nat)
    | Compact(sign: char, hh: nat, mm: nat)
    | HoursOnly(sign: char, hh: nat)

  datatype SecondsText = NoSeconds | Whole(s: nat) | Fraction(s: nat, digits: string)

  datatype TimeText = TimeText(separator: char, hour: nat, minute: nat, seconds: SecondsText)

  /** `YYYY-MM-DD[(T| )HH:MM[:SS[.f+]]][zone]`. */
  datatype LiteralText = LiteralText(date: Date, time: Option<TimeText>, zone: ZoneText)

  predicate ZoneOk(z: ZoneText) {
    match z
    case NoZone => true
    case Utc(c) => c == 'Z' || c == 'z'
    case Colon(sign, hh, mm) => (sign == '+' || sign == '-') && hh < 100 && mm < 100
    case Compact(sign, hh, mm) => (sign == '+' || sign == '-') && hh < 100 && mm < 100
    case HoursOnly(sign, hh) => (sign == '+' || sign == '-') && hh < 100
  }

  predicate SecondsOk(s: SecondsText) {
    match s
    case NoSeconds => true
    case Whole(n) => n <= 60
    case Fraction(n, digits) => n <= 60 && 0 < |digits| <= 9 && AllDigits(digits)
  }

  predicate LiteralOk(l: LiteralText) {
    && -999 <= l.date.year <= 9999 && ValidDate(l.date)
    && ZoneOk(l.zone)
    && (l.time.Some? ==>
          var t := l.time.value;
          && (t.separator == 'T' || t.separator == 't' || t.separator == ' ')
          && t.hour < 24 && t.minute < 60 && SecondsOk(t.seconds))
  }

  /** `{:04}` of a year: the sign is part of the width. */
  function YearString(year: int): string {
    if year >= 0 then ZeroFill(year, 4) else "-" + ZeroFill(-year, 3)
  }

  function TwoDigits(n: nat): string { ZeroFill(n, 2) }

  function ZoneString(z: ZoneText): string {
    match z
    case NoZone => ""
    case Utc(c) => [c]
    case Colon(sign, hh, mm) => [sign] + TwoDigits(hh) + ":" + TwoDigits(mm)
    case Compact(sign, hh, mm) => [sign] + TwoDigits(hh) + TwoDigits(mm)
    case HoursOnly(sign, hh) => [sign] + TwoDigits(hh)
  }

  function SecondsString(s: SecondsText): string {
    match s
    case NoSeconds => ""
    case Whole(n) => ":" + TwoDigits(n)
    case Fraction(n, digits) => ":" + TwoDigits(n) + "." + digits
  }

  function DateString(d: Date): string
    requires d.month >= 0 && d.day >= 0
  {
    YearString(d.year) + "-" + TwoDigits(d.month) + "-" + TwoDigits(d.day)
  }

  function TimeString(t: TimeText): string {
    TwoDigits(t.hour) + ":" + TwoDigits(t.minute) + SecondsString(t.seconds)
  }

  function Render(l: LiteralText): string
    requires LiteralOk(l)
  {
    DateString(l.date)
    + (if l.time.Some? then [l.time.value.separator] + TimeString(l.time.value) else "")
    + ZoneString(l.zone)
  }

  function SecondsMicros(s: SecondsText): int {
    match s
    case NoSeconds => 0
    case Whole(n) => n * MICROS_PER_SECOND
    case Fraction(n, digits) => n * MICROS_PER_SECOND + SixDigits(digits)
  }

  function ZoneOffset(z: ZoneText): int {
    match z
    case NoZone => 0
    case Utc(_) => 0
    case Colon(sign, hh, mm) => (if sign == '-' then -1 else 1) * (hh * MICROS_PER_HOUR + mm * MICROS_PER_MINUTE)
    case Compact(sign, hh, mm) => (if sign == '-' then -1 else 1) * (hh * MICROS_PER_HOUR + mm * MICROS_PER_MINUTE)
    case HoursOnly(sign, hh) => (if sign == '-' then -1 else 1) * (hh * MICROS_PER_HOUR)
  }

  /** The instant a literal names: local time less its offset. */
  function Denotes(l: LiteralText): int {
    Days(l.date) * MICROS_PER_DAY
    + (if l.time.None? then 0
       else l.time.value.hour * MICROS_PER_HOUR + l.time.value.minute * MICROS_PER_MINUTE
            + SecondsMicros(l.time.value.seconds))
    - ZoneOffset(l.zone)
  }

  // ----------------------------------------------- reading each piece back

  lemma TwoDigitsRead(n: nat)
    requires n < 100
    ensures |TwoDigits(n)| == 2 && AllDigits(TwoDigits(n)) && ParseInt(TwoDigits(n)) == Some(n)
  {
    assert Pow10(2) == 100;
    ZeroFillIsPad(n, 2);
    ParsePad(n, 2);
  }

  lemma YearRead(year: int)
    requires -999 <= year <= 9999
    ensures var s := YearString(year);
            |s| == 4 && ParseInt(s) == Some(year) && !IsSpace(s[0])
  {
    hide ZeroFill;
    if year >= 0 { FourDigits(year); } else { MinusThree(-year); }
  }

  lemma FourDigits(n: nat)
    requires n <= 9999
    ensures var s := ZeroFill(n, 4); |s| == 4 && ParseInt(s) == Some(n) && !IsSpace(s[0])
  {
    hide ZeroFill, ParseInt;
    assert Pow10(4) == 10_000;
    ZeroFillIsPad(n, 4);
    ParsePad(n, 4);
    assert IsDigit(Pad(n, 4)[0]);
  }

  lemma MinusThree(n: int)
    requires 0 <= n <= 999
    ensures var s := "-" + ZeroFill(n, 3); |s| == 4 && ParseInt(s) == Some(-n)
  {
    hide ZeroFill, Pad, Value;
    assert Pow10(3) == 1000;
    ZeroFillIsPad(n, 3);
    ValueOfPad(n, 3);
    var s := "-" + Pad(n, 3);
    assert s[1..] == Pad(n, 3);
  }

  /** What may follow a time of day without being read into it. */
  predicate EndsClock(tail: string) {
    tail == "" || (tail[0] != ':' && tail[0] != '.' && !IsDigit(tail[0]))
  }

  lemma ZoneReads(z: ZoneText)
    requires ZoneOk(z)
    ensures ReadZone(ZoneString(z)) == Some(ZoneRead(ZoneOffset(z), ""))
    ensures EndsClock(ZoneString(z))
    ensures ZoneString(z) != "" ==> ZoneString(z)[0] in "Zz+-"
    ensures ZoneString(z) == "" ==> ZoneOffset(z) == 0
  {
    hide ParseInt, ZeroFill, TwoDigits;
    var s := ZoneString(z);
    match z
    case NoZone =>
    case Utc(_) =>
    case Colon(sign, hh, mm) =>
      TwoDigitsRead(hh);
      TwoDigitsRead(mm);
      var body := s[1..];
      assert body == TwoDigits(hh) + ":" + TwoDigits(mm);
      assert body[0..2] == TwoDigits(hh) && body[3..5] == TwoDigits(mm) && s[6..] == "";
    case Compact(sign, hh, mm) =>
      TwoDigitsRead(hh);
      TwoDigitsRead(mm);
      var body := s[1..];
      assert body == TwoDigits(hh) + TwoDigits(mm);
      assert body[0..2] == TwoDigits(hh) && body[2..4] == TwoDigits(mm) && s[5..] == "";
      assert IsDigit(TwoDigits(mm)[0]);
    case HoursOnly(sign, hh) =>
      TwoDigitsRead(hh);
      var body := s[1..];
      assert body[0..2] == TwoDigits(hh) && s[3..] == "";
  }

  lemma FractionReads(digits: string, tail: string)
    requires 0 < |digits| <= 9 && AllDigits(digits) && EndsClock(tail)
    ensures ReadFraction("." + digits + tail) == Some((SixDigits(digits), tail))
  {
    hide FractionMicros, SixDigits;
    FractionIsSixDigits(digits);
    var s := "." + digits + tail;
    assert s[1..] == digits + tail;
    DigitRunOf(digits, tail);
    assert s[1..1 + |digits|] == digits && s[1 + |digits|..] == tail;
  }

  lemma SecondsRead(sec: SecondsText, tail: string)
    requires SecondsOk(sec) && EndsClock(tail)
    ensures ReadSeconds(SecondsString(sec) + tail).Some?
    ensures var r := ReadSeconds(SecondsString(sec) + tail).value;
            && 0 <= r.0 <= 60 && r.2 == tail
            && r.0 * MICROS_PER_SECOND + r.1 == SecondsMicros(sec)
  {
    hide SixDigits, ParseInt, TwoDigits, ReadFraction;
    var s := SecondsString(sec) + tail;
    match sec
    case NoSeconds => assert s == tail;
    case Whole(n) =>
      WholeSecondsRead(n, tail);
      NoFraction(tail);
    case Fraction(n, digits) =>
      var more := "." + digits + tail;
      assert s == ":" + TwoDigits(n) + more;
      WholeSecondsRead(n, more);
      FractionReads(digits, tail);
  }

  lemma NoFraction(tail: string)
    requires EndsClock(tail)
    ensures ReadFraction(tail) == Some((0, tail))
  {
  }

  lemma WholeSecondsRead(n: nat, tail: string)
    requires n < 100
    ensures ReadSeconds(":" + TwoDigits(n) + tail) ==
            if ReadFraction(tail).None? then None
            else Some((n, ReadFraction(tail).value.0, ReadFraction(tail).value.1))
  {
    hide ParseInt, TwoDigits, ReadFraction;
    TwoDigitsRead(n);
    var s := ":" + TwoDigits(n) + tail;
    assert s[1..3] == TwoDigits(n) && s[3..] == tail;
  }

  lemma ClockReads(t: TimeText, tail: string)
    requires t.hour < 24 && t.minute < 60 && SecondsOk(t.seconds) && EndsClock(tail)
    ensures ReadClock(TimeString(t) + tail).Some?
    ensures var r := ReadClock(TimeString(t) + tail).value;
            && r.hour == t.hour && r.minute == t.minute && 0 <= r.second <= 60 && r.rest == tail
            && r.second * MICROS_PER_SECOND + r.micro == SecondsMicros(t.seconds)
  {
    hide ParseInt, ZeroFill, ReadSeconds, SecondsString, SecondsMicros, TwoDigits;
    TwoDigitsRead(t.hour);
    TwoDigitsRead(t.minute);
    SecondsRead(t.seconds, tail);
    var s := TimeString(t) + tail;
    assert s[0..2] == TwoDigits(t.hour) && s[3..5] == TwoDigits(t.minute);
    assert s[5..] == SecondsString(t.seconds) + tail;
  }

  lemma TrimKeeps(s: string)
    requires s != "" && !IsSpace(s[0]) && !IsSpace(s[|s| - 1])
    ensures Trim(s) == s
  {
  }

  /** The ten characters of a date, in front of any tail. */
  lemma DateReads(d: Date, tail: string)
    requires -999 <= d.year <= 9999 && 0 <= d.month < 100 && 0 <= d.day < 100
    ensures var s := DateString(d) + tail;
            && |s| == 10 + |tail| && s[4] == '-' && s[7] == '-' && s[10..] == tail
            && ParseInt(s[0..4]) == Some(d.year)
            && ParseInt(s[5..7]) == Some(d.month)
            && ParseInt(s[8..10]) == Some(d.day)
            && !IsSpace(s[0]) && IsDigit(s[9])
  {
    hide ParseInt, ZeroFill, TwoDigits, YearString;
    YearRead(d.year);
    TwoDigitsRead(d.month);
    TwoDigitsRead(d.day);
    var s := DateString(d) + tail;
    assert s[0..4] == YearString(d.year);
    assert s[5..7] == TwoDigits(d.month);
    assert s[8..10] == TwoDigits(d.day);
    assert s[9] == TwoDigits(d.day)[1];
  }

  lemma TailReads(l: LiteralText)
    requires LiteralOk(l)
    ensures var tail := (if l.time.Some? then [l.time.value.separator] + TimeString(l.time.value) else "")
                        + ZoneString(l.zone);
            && (tail != "" ==> !IsSpace(tail[|tail| - 1]))
            && ReadTail(tail).Some?
            && var (c, z) := ReadTail(tail).value;
               && 0 <= c.hour <= 23 && 0 <= c.minute <= 59 && 0 <= c.second <= 60 && z.rest == ""
               && c.hour * MICROS_PER_HOUR + c.minute * MICROS_PER_MINUTE + c.second * MICROS_PER_SECOND + c.micro
                  - z.offset == Denotes(l) - Days(l.date) * MICROS_PER_DAY
  {
    hide ReadClock, ReadZone, TimeString, ZoneString, SecondsMicros, ZoneOffset, DaysFromCivil;
    ZoneReads(l.zone);
    var zone := ZoneString(l.zone);
    EndsUnspaced(l);
    if l.time.Some? {
      var t := l.time.value;
      ClockReads(t, zone);
      var tail := [t.separator] + TimeString(t) + zone;
      assert tail[1..] == TimeString(t) + zone;
    } else {
      assert "" + zone == zone;
    }
  }

  lemma EndsUnspaced(l: LiteralText)
    requires LiteralOk(l)
    ensures ZoneString(l.zone) != "" ==> !IsSpace(ZoneString(l.zone)[|ZoneString(l.zone)| - 1])
    ensures l.time.Some? ==> TimeString(l.time.value) != "" && !IsSpace(TimeString(l.time.value)[|TimeString(l.time.value)| - 1])
  {
    hide ZeroFill, Value;
    match l.zone {
      case NoZone =>
      case Utc(_) =>
      case Colon(_, hh, mm) => TwoDigitsRead(mm); assert IsDigit(TwoDigits(mm)[1]);
      case Compact(_, hh, mm) => TwoDigitsRead(mm); assert IsDigit(TwoDigits(mm)[1]);
      case HoursOnly(_, hh) => TwoDigitsRead(hh); assert IsDigit(TwoDigits(hh)[1]);
    }
    if l.time.Some? {
      var t := l.time.value;
      TwoDigitsRead(t.minute);
      assert IsDigit(TwoDigits(t.minute)[1]);
      match t.seconds {
        case NoSeconds =>
        case Whole(n) => TwoDigitsRead(n); assert IsDigit(TwoDigits(n)[1]);
        case Fraction(n, digits) => assert IsDigit(digits[|digits| - 1]);
      }
    }
  }

  /** Every literal of a documented form reads to the instant it names. */
  lemma ParseReadsEveryLiteral(l: LiteralText)
    requires LiteralOk(l)
    ensures ParseTimestamp(Render(l)) == Some(Denotes(l))
  {
    hide DateString, ReadTail, DaysFromCivil, CivilFromDays, ParseInt, Denotes, TimeString, ZoneString, Trim;
    var tail := (if l.time.Some? then [l.time.value.separator] + TimeString(l.time.value) else "")
                + ZoneString(l.zone);
    var s := Render(l);
    assert s == DateString(l.date) + tail;
    DateReads(l.date, tail);
    TailReads(l);
    TrimKeeps(s);
    CivilAfterDays(l.date);
    TrimOfEmpty();
  }

  lemma TrimOfEmpty()
    ensures Trim("") == ""
  {
  }

  /** Any two-digit month and day written after a year: a date that exists reads
      to its midnight, and one that does not is refused. */
  lemma DateReadsIffItExists(d: Date)
    requires -999 <= d.year <= 9999 && 0 <= d.month < 100 && 0 <= d.day < 100
    ensures ParseTimestamp(DateString(d)) ==
            if ValidDate(d) then Some(Days(d) * MICROS_PER_DAY) else None
  {
    hide DateString, DaysFromCivil, CivilFromDays, ParseInt, Trim;
    var s := DateString(d);
    DateReads(d, "");
    assert s + "" == s;
    TrimKeeps(s);
    TrimOfEmpty();
    if 1 <= d.month <= 12 && 1 <= d.day <= 31 { RoundTripTestsExistence(d); }
  }

  // --------------------------------------------------- what acceptance means

  lemma TwoCharsParse(s: string)
    requires |s| == 2 && ParseInt(s).Some?
    ensures -9 <= ParseInt(s).value <= 99
  {
    var signed := s[0] == '-' || s[0] == '+';
    var digits := if signed then s[1..] else s;
    ValueBound(digits);
    assert Pow10(1) == 10 && Pow10(2) == 100;
  }

  lemma YearParse(s: string)
    requires |s| == 4 && ParseInt(s).Some?
    ensures -999 <= ParseInt(s).value <= 9999
  {
    var signed := s[0] == '-' || s[0] == '+';
    var digits := if signed then s[1..] else s;
    ValueBound(digits);
    assert Pow10(3) == 1000 && Pow10(4) == 10_000;
  }

  lemma FractionInRange(digits: string)
    requires AllDigits(digits) && 0 < |digits| <= 9
    ensures 0 <= FractionMicros(digits) < 1_000_000
  {
    ValueBound(digits);
    assert Pow10(0) == 1 && Pow10(1) == 10 && Pow10(2) == 100 && Pow10(3) == 1000 && Pow10(4) == 10_000;
    assert Pow10(5) == 100_000 && Pow10(6) == 1_000_000 && Pow10(7) == 10_000_000;
    assert Pow10(8) == 100_000_000 && Pow10(9) == 1_000_000_000;
  }

  lemma ClockMicroInRange(rest: string)
    requires ReadClock(rest).Some?
    ensures 0 <= ReadClock(rest).value.micro < 1_000_000
  {
    hide ParseInt, FractionMicros;
    var tail := rest[5..];
    if tail != "" && tail[0] == ':' {
      var f := tail[3..];
      if f != "" && f[0] == '.' {
        var digits := Min(DigitRun(f[1..]), 9);
        assert f[1..1 + digits] == f[1..][..digits];
        FractionInRange(f[1..1 + digits]);
      }
    }
  }

  lemma ZoneInRange(rest: string)
    requires ReadZone(rest).Some?
    ensures -100 * MICROS_PER_HOUR - 100 * MICROS_PER_MINUTE <= ReadZone(rest).value.offset
            <= 100 * MICROS_PER_HOUR + 100 * MICROS_PER_MINUTE
  {
    hide ParseInt;
    if rest != "" && (rest[0] == '+' || rest[0] == '-') {
      var body := rest[1..];
      TwoCharsParse(body[0..2]);
      if |body| >= 5 && body[2] == ':' {
        TwoCharsParse(body[3..5]);
      } else if |body| >= 4 {
        TwoCharsParse(body[2..4]);
      }
    }
  }

  /** Whatever text is accepted names a date that exists and a time of day in
      range, less an offset of at most two digits each way, and no step of its
      arithmetic leaves i64. */
  lemma AcceptedIsAnInstant(text: string) returns (d: Date, hour: int, minute: int, second: int, micro: int, offset: int)
    requires ParseTimestamp(text).Some?
    ensures ValidDate(d) && -999 <= d.year <= 9999
    ensures 0 <= hour <= 23 && 0 <= minute <= 59 && 0 <= second <= 60 && 0 <= micro < 1_000_000
    ensures ParseTimestamp(text).value ==
            Days(d) * MICROS_PER_DAY + hour * MICROS_PER_HOUR + minute * MICROS_PER_MINUTE
            + second * MICROS_PER_SECOND + micro - offset
    ensures -366_000_000_000 <= offset <= 366_000_000_000
    ensures IsI64(ParseTimestamp(text).value) && IsI64(ParseTimestamp(text).value + offset)
  {
    hide DaysFromCivil, CivilFromDays, ParseInt, ReadClock, ReadZone, Trim, ValidDate;
    var s := Trim(text);
    d := Date(ParseInt(s[0..4]).value, ParseInt(s[5..7]).value, ParseInt(s[8..10]).value);
    YearParse(s[0..4]);
    DaysAfterCivil(Days(d));
    YearsAreSmall(d);
    var rest := s[10..];
    var (c, z) := ReadTail(rest).value;
    hour, minute, second, micro, offset := c.hour, c.minute, c.second, c.micro, z.offset;
    if rest != "" {
      if rest[0] == 'T' || rest[0] == 't' || rest[0] == ' ' { ClockMicroInRange(rest[1..]); }
      ZoneInRange(c.rest);
    }
  }

  lemma YearsAreSmall(d: Date)
    requires ValidDate(d) && -999 <= d.year <= 9999
    ensures -2_000_000 <= Days(d) <= 4_000_000
  {
    DaysMonotone(Date(-1000, 1, 1), d);
    DaysMonotone(d, Date(10000, 1, 1));
    YearEdges();
  }

  lemma YearEdges()
    ensures Days(Date(-1000, 1, 1)) >= -2_000_000 && Days(Date(10000, 1, 1)) <= 4_000_000
  {
    DaysOfParts(-1001, 10, 1);
    DaysOfParts(9999, 10, 1);
  }

  // ------------------------------------------------------------- the printer

  /** `format_timestamp`. */
  function FormatTimestamp(micros: int): string {
    var c := CivilFromMicros(micros);
    CivilRoundTrip(micros);
    var seconds := if c.micro == 0 then ":" + TwoDigits(c.second)
                   else ":" + TwoDigits(c.second) + "." + ZeroFill(c.micro, 6);
    DateString(Date(c.year, c.month, c.day))
    + ("T" + (TwoDigits(c.hour) + ":" + TwoDigits(c.minute) + seconds))
    + "Z"
  }

  /** `format_date`. */
  function FormatDate(micros: int): string {
    var c := CivilFromMicros(micros);
    CivilRoundTrip(micros);
    DateString(Date(c.year, c.month, c.day))
  }

  /** Two digits of `s` at `i` are worth `n`. */
  predicate TwoAt(s: string, i: nat, n: int) {
    i + 2 <= |s| && AllDigits(s[i..i + 2]) && Value(s[i..i + 2]) == n
  }

  predicate DateAt(s: string, k: nat, c: Civil) {
    && k + 6 <= |s| && ParseInt(s[..k]) == Some(c.year) && s[k] == '-' && TwoAt(s, k + 1, c.month)
    && s[k + 3] == '-' && TwoAt(s, k + 4, c.day)
  }

  predicate ClockAt(s: string, k: nat, c: Civil) {
    && |s| == k + (if c.micro == 0 then 10 else 17)
    && s[k] == 'T' && TwoAt(s, k + 1, c.hour) && s[k + 3] == ':' && TwoAt(s, k + 4, c.minute)
    && s[k + 6] == ':' && TwoAt(s, k + 7, c.second) && s[|s| - 1] == 'Z'
    && (c.micro != 0 ==> s[k + 9] == '.' && AllDigits(s[k + 10..k + 16]) && Value(s[k + 10..k + 16]) == c.micro)
  }

  /** `YYYY-MM-DDTHH:MM:SS[.ffffff]Z`, place by place (section 5.6 of RFC 3339):
      the year in `k` characters, four or as many as it needs, and a fraction
      exactly when there is one. */
  lemma FormatSpells(micros: int) returns (k: nat)
    requires IsI64(micros)
    ensures var c, s := CivilFromMicros(micros), FormatTimestamp(micros);
            && k >= 4 && (k == 4 <==> -999 <= c.year <= 9999)
            && DateAt(s, k, c) && ClockAt(s, k + 6, c) && FormatDate(micros) == s[..k + 6]
  {
    hide CivilFromMicros, YearString, DateString, FormatTimestamp, FormatDate, DateAt, ClockAt, ParseInt, ClockText,
      ValidDate, MicrosFromCivil;
    var c := CivilFromMicros(micros);
    CivilRoundTrip(micros);
    TwoDigitMonths(Date(c.year, c.month, c.day));
    YearIsSmall(micros);
    k := |YearString(c.year)|;
    YearSpells(c.year);
    FormatIs(micros);
    DateSpells(c, ClockText(c));
    ClockSpells(c, DateString(Date(c.year, c.month, c.day)));
  }

  /** What follows the date. */
  function ClockText(c: Civil): string
    requires 0 <= c.hour && 0 <= c.minute && 0 <= c.second && 0 <= c.micro
  {
    "T" + TwoDigits(c.hour) + ":" + TwoDigits(c.minute) + ":" + TwoDigits(c.second)
    + (if c.micro == 0 then "" else "." + ZeroFill(c.micro, 6)) + "Z"
  }

  lemma FormatIs(micros: int)
    ensures var c := CivilFromMicros(micros);
            && c.month >= 0 && c.day >= 0 && c.hour >= 0 && c.minute >= 0 && c.second >= 0 && c.micro >= 0
            && var date := DateString(Date(c.year, c.month, c.day));
               && FormatTimestamp(micros) == date + ClockText(c) && FormatDate(micros) == date
               && FormatTimestamp(micros)[..|date|] == date
  {
    CivilRoundTrip(micros);
    hide CivilFromMicros, TwoDigits, ZeroFill, DateString;
  }

  lemma DateSpells(c: Civil, tail: string)
    requires -300_000 <= c.year <= 300_000 && 0 <= c.month < 100 && 0 <= c.day < 100
    ensures var date := DateString(Date(c.year, c.month, c.day));
            |date| == |YearString(c.year)| + 6 && DateAt(date + tail, |YearString(c.year)|, c)
  {
    YearSpells(c.year);
    TwoDigitsSpell(c.month);
    TwoDigitsSpell(c.day);
    hide YearString, TwoDigits, ZeroFill, Value, ParseInt, DateAt, AllDigits;
    DateOfPieces(YearString(c.year), TwoDigits(c.month), TwoDigits(c.day), tail, c);
  }

  lemma DateOfPieces(y: string, m: string, d: string, tail: string, c: Civil)
    requires ParseInt(y) == Some(c.year) && |m| == 2 && |d| == 2
    requires AllDigits(m) && Value(m) == c.month && AllDigits(d) && Value(d) == c.day
    ensures DateAt(y + "-" + m + "-" + d + tail, |y|, c)
  {
    hide Value, ParseInt, TwoAt, AllDigits;
    DatePlaces(y, m, d, tail);
    var s := y + "-" + m + "-" + d + tail;
    TwoAtOf(s, |y| + 1, m, c.month);
    TwoAtOf(s, |y| + 4, d, c.day);
  }

  lemma TwoAtOf(s: string, i: nat, piece: string, n: int)
    requires i + 2 <= |s| && s[i..i + 2] == piece && AllDigits(piece) && Value(piece) == n
    ensures TwoAt(s, i, n)
  {
    hide Value;
  }

  lemma ClockSpells(c: Civil, date: string)
    requires 0 <= c.hour < 100 && 0 <= c.minute < 100 && 0 <= c.second < 100 && 0 <= c.micro < 1_000_000
    ensures ClockAt(date + ClockText(c), |date|, c)
  {
    TwoDigitsSpell(c.hour);
    TwoDigitsSpell(c.minute);
    TwoDigitsSpell(c.second);
    SixSpell(c.micro);
    hide TwoDigits, ZeroFill, Value, TwoAt;
    var fraction := if c.micro == 0 then "" else "." + ZeroFill(c.micro, 6);
    var k := |date|;
    var s := date + ClockText(c);
    ClockPlaces(date, TwoDigits(c.hour), TwoDigits(c.minute), TwoDigits(c.second), fraction);
    hide ClockText, AllDigits;
    TwoAtOf(s, k + 1, TwoDigits(c.hour), c.hour);
    TwoAtOf(s, k + 4, TwoDigits(c.minute), c.minute);
    TwoAtOf(s, k + 7, TwoDigits(c.second), c.second);
    if c.micro != 0 { FractionPlaces(s, k, ZeroFill(c.micro, 6)); }
  }

  lemma FractionPlaces(s: string, k: nat, digits: string)
    requires |digits| == 6 && |s| == k + 17 && s[k + 9..|s| - 1] == "." + digits
    ensures s[k + 9] == '.' && s[k + 10..k + 16] == digits
  {
    var f := s[k + 9..k + 16];
    assert f[0] == s[k + 9] && f[1..] == s[k + 10..k + 16];
  }

  lemma SixSpell(micro: nat)
    requires micro < 1_000_000
    ensures |ZeroFill(micro, 6)| == 6 && Value(ZeroFill(micro, 6)) == micro
  {
    assert Pow10(6) == 1_000_000;
    ZeroFillIsPad(micro, 6);
    ValueOfPad(micro, 6);
  }

  lemma DatePlaces(y: string, m: string, d: string, tail: string)
    requires |m| == 2 && |d| == 2
    ensures var s := y + "-" + m + "-" + d + tail;
            var k := |y|;
            && |s| == k + 6 + |tail| && s[..k] == y && s[k] == '-' && s[k + 1..k + 3] == m && s[k + 3] == '-'
            && s[k + 4..k + 6] == d
  {
  }

  lemma ClockPlaces(date: string, h: string, m: string, sec: string, f: string)
    requires |h| == 2 && |m| == 2 && |sec| == 2
    ensures var s := date + ("T" + h + ":" + m + ":" + sec + f + "Z");
            var k := |date|;
            && |s| == k + 10 + |f| && s[..k] == date && s[k] == 'T' && s[k + 1..k + 3] == h && s[k + 3] == ':'
            && s[k + 4..k + 6] == m && s[k + 6] == ':' && s[k + 7..k + 9] == sec && s[k + 9..|s| - 1] == f
            && s[|s| - 1] == 'Z'
  {
  }

  lemma TwoDigitsSpell(n: nat)
    requires n < 100
    ensures |TwoDigits(n)| == 2 && AllDigits(TwoDigits(n)) && Value(TwoDigits(n)) == n
  {
    assert Pow10(2) == 100;
    ZeroFillIsPad(n, 2);
    ValueOfPad(n, 2);
  }

  lemma YearIsSmall(micros: int)
    requires IsI64(micros)
    ensures -300_000 <= Extract(Year, micros) <= 300_000
  {
    hide UnitStart, UnitIndex, DaysFromCivil, CivilFromDays;
    EdgeStarts();
    IndexIsYear(micros);
    IndexIsYear(UnitStart(Year, -290_308));
    IndexIsYear(UnitStart(Year, 294_248));
    IndexMonotone(Year, UnitStart(Year, -290_308), micros);
    IndexMonotone(Year, micros, UnitStart(Year, 294_248));
    IndexOfStart(Year, -290_308);
    IndexOfStart(Year, 294_248);
  }

  lemma IndexIsYear(t: int)
    ensures UnitIndex(Year, t) == Extract(Year, t)
  {
    hide CivilFromDays;
  }

  lemma YearSpells(year: int)
    requires -300_000 <= year <= 300_000
    ensures var s := YearString(year);
            |s| >= 4 && (|s| == 4 <==> -999 <= year <= 9999) && ParseInt(s) == Some(year)
  {
    assert Pow10(3) == 1000 && Pow10(4) == 10_000;
    if -999 <= year <= 9999 {
      YearRead(year);
    } else {
      var n := if year >= 0 then year else -year;
      DecimalLength(n, if year >= 0 then 4 else 3);
      ValueOfDecimal(n);
      var d := Decimal(n);
      hide Decimal, Value;
      assert year < 0 ==> YearString(year)[1..] == d;
    }
  }

  /** The literal the printer spells. */
  function PrintedLiteral(micros: int): LiteralText {
    var c := CivilFromMicros(micros);
    CivilRoundTrip(micros);
    var seconds := if c.micro == 0 then Whole(c.second) else Fraction(c.second, ZeroFill(c.micro, 6));
    LiteralText(Date(c.year, c.month, c.day), Some(TimeText('T', c.hour, c.minute, seconds)), Utc('Z'))
  }

  lemma FractionOfPad(micro: nat)
    requires micro < 1_000_000
    ensures ZeroFill(micro, 6) == Pad(micro, 6)
    ensures SixDigits(ZeroFill(micro, 6)) == micro
  {
    assert Pow10(6) == 1_000_000;
    ZeroFillIsPad(micro, 6);
    ValueOfPad(micro, 6);
    assert (Pad(micro, 6) + "000000")[..6] == Pad(micro, 6);
  }

  lemma PrintedLiteralDenotes(micros: int)
    requires -999 <= CivilFromMicros(micros).year <= 9999
    ensures LiteralOk(PrintedLiteral(micros))
    ensures Denotes(PrintedLiteral(micros)) == micros
  {
    hide CivilFromDays, DaysFromCivil, ZeroFill, SixDigits, CivilFromMicros, ValidDate;
    CivilRoundTrip(micros);
    var c := CivilFromMicros(micros);
    FractionOfPad(c.micro);
    assert Denotes(PrintedLiteral(micros)) == MicrosFromCivil(c);
  }

  lemma PrintedLiteralIsPrinted(micros: int)
    requires LiteralOk(PrintedLiteral(micros))
    ensures Render(PrintedLiteral(micros)) == FormatTimestamp(micros)
  {
    hide DateString, TwoDigits, ZeroFill, CivilFromMicros, LiteralOk;
    CivilRoundTrip(micros);
  }

  /** A year outside the four-character range pushes the first hyphen along, so
      nothing the printer writes for it reads back. */
  lemma LongYearNeverReads(year: int, tail: string)
    requires !(-999 <= year <= 9999) && tail != "" && !IsSpace(tail[|tail| - 1])
    ensures ParseTimestamp(YearString(year) + tail) == None
  {
    hide Decimal;
    var y := YearString(year);
    assert Pow10(4) == 10_000 && Pow10(3) == 1000;
    if year >= 0 { DecimalLength(year, 4); } else { DecimalLength(-year, 3); }
    var d := if year >= 0 then y else y[1..];
    assert AllDigits(d) && |y| >= 5;
    assert IsDigit(y[4]) by { assert y[4] == if year >= 0 then d[4] else d[3]; }
    assert !IsSpace(y[0]) by { assert year >= 0 ==> IsDigit(d[0]); }
    TrimKeeps(y + tail);
  }

  lemma FormatStartsWithYear(micros: int) returns (tail: string)
    ensures FormatTimestamp(micros) == YearString(CivilFromMicros(micros).year) + tail
    ensures tail != "" && !IsSpace(tail[|tail| - 1])
  {
    hide CivilFromMicros, YearString, TwoDigits, ZeroFill;
    var c := CivilFromMicros(micros);
    CivilRoundTrip(micros);
    var y := YearString(c.year);
    tail := FormatTimestamp(micros)[|y|..];
    assert DateString(Date(c.year, c.month, c.day))[..|y|] == y;
  }

  /** The printed timestamp reads back to the instant, microsecond for
      microsecond, if and only if its year prints in four characters. */
  lemma TimestampRoundTrip(micros: int)
    ensures ParseTimestamp(FormatTimestamp(micros)) == Some(micros)
            <==> -999 <= Extract(Year, micros) <= 9999
    ensures !(-999 <= Extract(Year, micros) <= 9999) ==> ParseTimestamp(FormatTimestamp(micros)) == None
  {
    hide CivilFromMicros, FormatTimestamp, ParseTimestamp, YearString;
    if -999 <= Extract(Year, micros) <= 9999 {
      PrintedLiteralDenotes(micros);
      PrintedLiteralIsPrinted(micros);
      ParseReadsEveryLiteral(PrintedLiteral(micros));
    } else {
      var tail := FormatStartsWithYear(micros);
      LongYearNeverReads(CivilFromMicros(micros).year, tail);
    }
  }

  /** The printed date reads back, to the start of the instant's day, if and only
      if its year prints in four characters. */
  lemma DateRoundTrip(micros: int)
    ensures ParseTimestamp(FormatDate(micros)) ==
            if -999 <= Extract(Year, micros) <= 9999 then Some(Trunc(Day, micros)) else None
  {
    hide CivilFromDays, DaysFromCivil, ParseTimestamp, YearString, TwoDigits, ValidDate;
    CivilRoundTrip(micros);
    var c := CivilFromMicros(micros);
    var d := Date(c.year, c.month, c.day);
    DaysAfterCivil(micros / MICROS_PER_DAY);
    TwoDigitMonths(d);
    if -999 <= c.year <= 9999 {
      DateReadsIffItExists(d);
    } else {
      TwoDigitsRead(d.month);
      TwoDigitsRead(d.day);
      var tail := "-" + TwoDigits(d.month) + "-" + TwoDigits(d.day);
      assert DateString(d) == YearString(d.year) + tail;
      assert tail[|tail| - 1] == TwoDigits(d.day)[1];
      LongYearNeverReads(d.year, tail);
    }
  }

  lemma TwoDigitMonths(d: Date)
    requires ValidDate(d)
    ensures 0 < d.month < 100 && 0 < d.day < 100
  {
  }
}
