/** Exactly which texts `parse_timestamp` accepts, and what each names.  The
    documented forms are among them, but each field is read by an integer parser
    and so may carry a sign of its own. */
module TimestampGrammar {
  import opened Calendar
  import opened TimeUnits
  import opened Text
  import opened Trimming
  import opened Timestamp

  // --------------------------------------------------------------- the grammar

  /** A fixed-width field: digits, or a sign and digits. */
  predicate IsField(s: string, width: nat) {
    |s| == width >= 2 && (IsDigit(s[0]) || s[0] == '+' || s[0] == '-') && AllDigits(s[1..])
  }

  function FieldValue(s: string): int {
    if s == "" then 0 else if s[0] == '-' then -Value(s[1..]) else if s[0] == '+' then Value(s[1..]) else Value(s)
  }

  /** `:SS`, and the digits of `.f` after it. */
  datatype Seconds = Seconds(second: string, fraction: Option<string>)

  datatype Clock = Clock(separator: char, hour: string, minute: string, seconds: Option<Seconds>)

  datatype Zone = Absent | Utc(z: char) | Offset(sign: char, hours: string, colon: bool, minutes: Option<string>)

  datatype Spelling = Spelling(year: string, month: string, day: string, clock: Option<Clock>, zone: Zone)

  predicate ZoneOk(z: Zone) {
    match z
    case Absent => true
    case Utc(c) => c == 'Z' || c == 'z'
    case Offset(sign, hours, colon, minutes) =>
      && (sign == '+' || sign == '-') && IsField(hours, 2)
      && (minutes.Some? ==> IsField(minutes.value, 2)) && (colon ==> minutes.Some?)
  }

  predicate SecondsOk(s: Seconds) {
    && IsField(s.second, 2) && 0 <= FieldValue(s.second) <= 60
    && (s.fraction.Some? ==> 0 < |s.fraction.value| <= 9 && AllDigits(s.fraction.value))
  }

  predicate ClockOk(c: Clock) {
    && (c.separator == 'T' || c.separator == 't' || c.separator == ' ')
    && IsField(c.hour, 2) && 0 <= FieldValue(c.hour) <= 23
    && IsField(c.minute, 2) && 0 <= FieldValue(c.minute) <= 59
    && (c.seconds.Some? ==> SecondsOk(c.seconds.value))
  }

  function DateOf(l: Spelling): Date { Date(FieldValue(l.year), FieldValue(l.month), FieldValue(l.day)) }

  predicate SpellingOk(l: Spelling) {
    && IsField(l.year, 4) && IsField(l.month, 2) && IsField(l.day, 2) && ValidDate(DateOf(l))
    && (l.clock.Some? ==> ClockOk(l.clock.value)) && ZoneOk(l.zone)
  }

  function ZoneString(z: Zone): string {
    match z
    case Absent => ""
    case Utc(c) => [c]
    case Offset(sign, hours, colon, minutes) =>
      [sign] + hours + (if colon then ":" else "") + (if minutes.Some? then minutes.value else "")
  }

  function FractionString(f: Option<string>): string { if f.None? then "" else "." + f.value }

  function SecondsString(s: Option<Seconds>): string {
    if s.None? then "" else ":" + s.value.second + FractionString(s.value.fraction)
  }

  function ClockString(c: Clock): string { c.hour + ":" + c.minute + SecondsString(c.seconds) }

  function TailString(l: Spelling): string {
    (if l.clock.Some? then [l.clock.value.separator] + ClockString(l.clock.value) else "") + ZoneString(l.zone)
  }

  function Spell(l: Spelling): string { l.year + "-" + l.month + "-" + l.day + TailString(l) }

  function ZoneMicros(z: Zone): int {
    match z
    case Absent => 0
    case Utc(_) => 0
    case Offset(sign, hours, _, minutes) =>
      (if sign == '-' then -1 else 1)
      * (FieldValue(hours) * MICROS_PER_HOUR
         + (if minutes.Some? then FieldValue(minutes.value) else 0) * MICROS_PER_MINUTE)
  }

  function FractionOf(f: Option<string>): int { if f.None? then 0 else SixDigits(f.value) }

  function SecondsOf(s: Option<Seconds>): (int, int) {
    if s.None? then (0, 0) else (FieldValue(s.value.second), FractionOf(s.value.fraction))
  }

  function ClockMicros(c: Clock): int {
    FieldValue(c.hour) * MICROS_PER_HOUR + FieldValue(c.minute) * MICROS_PER_MINUTE
    + SecondsOf(c.seconds).0 * MICROS_PER_SECOND + SecondsOf(c.seconds).1
  }

  /** The instant a spelling names: its local time less its offset. */
  function Instant(l: Spelling): int {
    Days(DateOf(l)) * MICROS_PER_DAY + (if l.clock.Some? then ClockMicros(l.clock.value) else 0) - ZoneMicros(l.zone)
  }

  // ------------------------------------------------------------------- fields

  lemma FieldReads(s: string)
    requires 2 <= |s| <= 4
    ensures ParseInt(s) == if IsField(s, |s|) then Some(FieldValue(s)) else None
  {
    if s[0] == '-' || s[0] == '+' {
      if AllDigits(s[1..]) { ValueBound(s[1..]); SmallPowers(|s| - 1); }
    } else if AllDigits(s) {
      ValueBound(s);
      SmallPowers(|s|);
    } else if AllDigits(s[1..]) {
      assert s == [s[0]] + s[1..];
    }
  }

  lemma SmallPowers(n: nat)
    requires n <= 4
    ensures Pow10(n) <= 10_000
  {
    assert Pow10(0) == 1 && Pow10(1) == 10 && Pow10(2) == 100 && Pow10(3) == 1000 && Pow10(4) == 10_000;
  }

  lemma FieldEnds(s: string, width: nat)
    requires IsField(s, width)
    ensures !IsSpace(s[0]) && IsDigit(s[width - 1]) && s[0] != ':'
  {
    assert s[1..][width - 2] == s[width - 1];
  }

  // ------------------------------------------------------------------ the zone

  lemma ZoneReads(z: Zone)
    requires ZoneOk(z)
    ensures ReadZone(ZoneString(z)) == Some(ZoneRead(ZoneMicros(z), ""))
    ensures EndsClock(ZoneString(z)) && (ZoneString(z) != "" ==> ZoneString(z)[0] in "Zz+-")
    ensures ZoneString(z) != "" ==> !IsSpace(ZoneString(z)[|ZoneString(z)| - 1])
  {
    hide ParseInt, FieldValue, IsField;
    if z.Offset? { OffsetReads(z); }
  }

  lemma OffsetReads(z: Zone)
    requires z.Offset? && ZoneOk(z)
    ensures ReadZone(ZoneString(z)) == Some(ZoneRead(ZoneMicros(z), ""))
    ensures !IsSpace(ZoneString(z)[|ZoneString(z)| - 1])
  {
    hide ParseInt, FieldValue, ReadZone;
    FieldEnds(z.hours, 2);
    FieldReads(z.hours);
    var s := ZoneString(z);
    if z.minutes.None? {
      assert s == [z.sign] + z.hours;
      HoursRead(z.sign, z.hours);
    } else {
      FieldEnds(z.minutes.value, 2);
      FieldReads(z.minutes.value);
      if z.colon {
        ColonReads(z.sign, z.hours, z.minutes.value);
      } else {
        assert s == [z.sign] + z.hours + z.minutes.value;
        CompactReads(z.sign, z.hours, z.minutes.value);
      }
    }
  }

  lemma HoursRead(sign: char, hh: string)
    requires (sign == '+' || sign == '-') && |hh| == 2 && ParseInt(hh).Some?
    ensures ReadZone([sign] + hh) == Some(ZoneRead((if sign == '-' then -1 else 1) * (ParseInt(hh).value * MICROS_PER_HOUR), ""))
  {
    hide ParseInt;
    var s := [sign] + hh;
    assert s[1..] == hh && hh[0..2] == hh && s[3..] == "";
  }

  lemma CompactReads(sign: char, hh: string, mm: string)
    requires (sign == '+' || sign == '-') && |hh| == 2 && |mm| == 2 && ParseInt(hh).Some? && ParseInt(mm).Some?
    ensures ReadZone([sign] + hh + mm) == Some(ZoneRead(
      (if sign == '-' then -1 else 1) * (ParseInt(hh).value * MICROS_PER_HOUR + ParseInt(mm).value * MICROS_PER_MINUTE), ""))
  {
    hide ParseInt;
    var s := [sign] + hh + mm;
    var body := hh + mm;
    assert s[1..] == body && body[0..2] == hh && body[2..4] == mm && s[5..] == "";
  }

  lemma ColonReads(sign: char, hh: string, mm: string)
    requires (sign == '+' || sign == '-') && |hh| == 2 && |mm| == 2 && ParseInt(hh).Some? && ParseInt(mm).Some?
    ensures ReadZone([sign] + hh + ":" + mm) == Some(ZoneRead(
      (if sign == '-' then -1 else 1) * (ParseInt(hh).value * MICROS_PER_HOUR + ParseInt(mm).value * MICROS_PER_MINUTE), ""))
  {
    hide ParseInt;
    var s := [sign] + hh + ":" + mm;
    var body := hh + ":" + mm;
    assert s[1..] == body && body[0..2] == hh && body[2] == ':' && body[3..5] == mm && s[6..] == "";
  }

  lemma ZoneAccepted(rest: string) returns (z: Zone)
    requires ReadZone(rest).Some? && ReadZone(rest).value.rest == ""
    ensures ZoneOk(z) && ZoneString(z) == rest && ZoneMicros(z) == ReadZone(rest).value.offset
  {
    hide ParseInt, FieldValue;
    if rest == "" {
      z := Absent;
    } else if rest[0] == 'Z' || rest[0] == 'z' {
      z := Zone.Utc(rest[0]);
      assert rest == [rest[0]] + rest[1..];
    } else {
      z := OffsetAccepted(rest);
    }
  }

  lemma OffsetAccepted(rest: string) returns (z: Zone)
    requires rest != "" && (rest[0] == '+' || rest[0] == '-')
    requires ReadZone(rest).Some? && ReadZone(rest).value.rest == ""
    ensures ZoneOk(z) && ZoneString(z) == rest && ZoneMicros(z) == ReadZone(rest).value.offset
  {
    hide ParseInt, FieldValue;
    var body := rest[1..];
    FieldReads(body[0..2]);
    if |body| >= 5 && body[2] == ':' {
      FieldReads(body[3..5]);
      z := Offset(rest[0], body[0..2], true, Some(body[3..5]));
      assert |rest| == 6;
    } else if |body| >= 4 {
      FieldReads(body[2..4]);
      z := Offset(rest[0], body[0..2], false, Some(body[2..4]));
      assert |rest| == 5;
    } else {
      z := Offset(rest[0], body[0..2], false, None);
      assert |rest| == 3;
    }
  }

  // ----------------------------------------------------------------- the clock

  predicate FractionOk(f: Option<string>) { f.Some? ==> 0 < |f.value| <= 9 && AllDigits(f.value) }

  lemma FractionSpelled(f: Option<string>, tail: string)
    requires FractionOk(f) && EndsClock(tail)
    ensures ReadFraction(FractionString(f) + tail) == Some((FractionOf(f), tail))
  {
    hide SixDigits, ReadFraction;
    if f.None? {
      assert "" + tail == tail;
      NoFraction(tail);
    } else {
      FractionReads(f.value, tail);
    }
  }

  lemma FractionAccepted(rest: string) returns (f: Option<string>)
    requires ReadFraction(rest).Some?
    ensures FractionOk(f) && ReadFraction(rest).value.0 == FractionOf(f)
    ensures rest == FractionString(f) + ReadFraction(rest).value.1
  {
    hide FractionMicros, SixDigits;
    f := None;
    if rest != "" && rest[0] == '.' {
      var n := Min(DigitRun(rest[1..]), 9);
      f := Some(rest[1..1 + n]);
      assert rest[1..1 + n] == rest[1..][..n];
      FractionIsSixDigits(rest[1..1 + n]);
    }
  }

  predicate SecondsSpelled(s: Option<Seconds>) {
    s.Some? ==> IsField(s.value.second, 2) && FractionOk(s.value.fraction)
  }

  lemma SecondsRead(sec: Option<Seconds>, tail: string)
    requires SecondsSpelled(sec) && EndsClock(tail)
    ensures ReadSeconds(SecondsString(sec) + tail) == Some((SecondsOf(sec).0, SecondsOf(sec).1, tail))
  {
    hide FractionOf, ParseInt, FieldValue, ReadFraction, FractionString;
    var s := SecondsString(sec) + tail;
    if sec.None? {
      assert s == tail;
    } else {
      var field, more := sec.value.second, FractionString(sec.value.fraction) + tail;
      FieldReads(field);
      FractionSpelled(sec.value.fraction, tail);
      assert s == ":" + field + more;
      assert s[1..3] == field && s[3..] == more;
    }
  }

  lemma SecondsAccepted(rest: string) returns (sec: Option<Seconds>)
    requires ReadSeconds(rest).Some?
    ensures SecondsSpelled(sec) && SecondsOf(sec) == (ReadSeconds(rest).value.0, ReadSeconds(rest).value.1)
    ensures rest == SecondsString(sec) + ReadSeconds(rest).value.2
  {
    hide FractionOf, ParseInt, FieldValue, ReadFraction, FractionString;
    sec := None;
    if rest != "" && rest[0] == ':' {
      FieldReads(rest[1..3]);
      var f := FractionAccepted(rest[3..]);
      sec := Some(Seconds(rest[1..3], f));
      assert rest == ":" + rest[1..3] + rest[3..];
    }
  }

  /** A clock as it is spelled, its fields in no particular range yet. */
  predicate ClockSpelled(c: Clock) {
    IsField(c.hour, 2) && IsField(c.minute, 2) && SecondsSpelled(c.seconds)
  }

  function ClockOf(c: Clock, rest: string): ClockRead {
    ClockRead(FieldValue(c.hour), FieldValue(c.minute), SecondsOf(c.seconds).0, SecondsOf(c.seconds).1, rest)
  }

  lemma ClockReads(c: Clock, tail: string)
    requires ClockSpelled(c) && EndsClock(tail)
    ensures ReadClock(ClockString(c) + tail) == Some(ClockOf(c, tail))
  {
    hide ParseInt, FieldValue, ReadSeconds, SecondsString, SecondsOf;
    var s := ClockString(c) + tail;
    FieldReads(c.hour);
    FieldReads(c.minute);
    SecondsRead(c.seconds, tail);
    assert s[0..2] == c.hour && s[3..5] == c.minute && s[5..] == SecondsString(c.seconds) + tail;
  }

  lemma ClockAccepted(separator: char, rest: string) returns (c: Clock)
    requires ReadClock(rest).Some?
    ensures c.separator == separator && ClockSpelled(c) && ReadClock(rest).value == ClockOf(c, ReadClock(rest).value.rest)
    ensures rest == ClockString(c) + ReadClock(rest).value.rest
  {
    hide ParseInt, FieldValue, ReadSeconds, SecondsString, SecondsOf;
    FieldReads(rest[0..2]);
    FieldReads(rest[3..5]);
    var sec := SecondsAccepted(rest[5..]);
    c := Clock(separator, rest[0..2], rest[3..5], sec);
    assert rest == rest[0..2] + ":" + rest[3..5] + rest[5..];
  }

  lemma ClockEnds(c: Clock)
    requires ClockSpelled(c)
    ensures ClockString(c) != "" && !IsSpace(ClockString(c)[|ClockString(c)| - 1])
  {
    FieldEnds(c.minute, 2);
    if c.seconds.Some? {
      FieldEnds(c.seconds.value.second, 2);
      var f := c.seconds.value.fraction;
      if f.Some? { assert IsDigit(f.value[|f.value| - 1]); }
    }
  }

  // -------------------------------------------------------------- the whole text

  /** The parts are there, whatever their values. */
  predicate PartsOk(l: Spelling) {
    && IsField(l.year, 4) && IsField(l.month, 2) && IsField(l.day, 2)
    && (l.clock.Some? ==>
          ClockSpelled(l.clock.value) && (l.clock.value.separator in "Tt "))
    && ZoneOk(l.zone)
  }

  function TailOf(l: Spelling): (ClockRead, ZoneRead) {
    var zone := ZoneString(l.zone);
    (if l.clock.Some? then ClockOf(l.clock.value, zone) else ClockRead(0, 0, 0, 0, zone), ZoneRead(ZoneMicros(l.zone), ""))
  }

  lemma TailReads(l: Spelling)
    requires PartsOk(l)
    ensures ReadTail(TailString(l)) == Some(TailOf(l))
    ensures TailString(l) != "" ==> !IsSpace(TailString(l)[|TailString(l)| - 1])
  {
    hide ReadClock, ReadZone, ClockString, ZoneString, ZoneMicros, FieldValue, SecondsOf;
    ZoneReads(l.zone);
    var zone := ZoneString(l.zone);
    if l.clock.Some? {
      var c := l.clock.value;
      ClockReads(c, zone);
      ClockEnds(c);
      var tail := TailString(l);
      assert tail[1..] == ClockString(c) + zone;
    } else {
      assert "" + zone == zone;
      EmptyZone(l.zone);
    }
  }

  lemma EmptyZone(z: Zone)
    ensures ZoneString(z) == "" ==> ZoneMicros(z) == 0
  {
  }

  lemma TailAccepted(rest: string) returns (clock: Option<Clock>, zone: Zone)
    requires ReadTail(rest).Some? && ReadTail(rest).value.1.rest == ""
    ensures (clock.Some? ==> ClockSpelled(clock.value) && clock.value.separator in "Tt ") && ZoneOk(zone)
    ensures rest == (if clock.Some? then [clock.value.separator] + ClockString(clock.value) else "") + ZoneString(zone)
  {
    hide ReadClock, ReadZone, ClockString, ZoneString, ZoneMicros, ClockOf, ClockSpelled;
    clock := None;
    if rest == "" {
      zone := Absent;
      assert ZoneString(Absent) == "" by { NoZoneText(); }
    } else {
      var c := ReadTail(rest).value.0;
      zone := ZoneAccepted(c.rest);
      if rest[0] == 'T' || rest[0] == 't' || rest[0] == ' ' {
        var k := ClockAccepted(rest[0], rest[1..]);
        clock := Some(k);
        assert rest == [rest[0]] + rest[1..];
      }
    }
  }

  lemma NoZoneText()
    ensures ZoneString(Absent) == ""
  {
  }

  lemma SpellSlices(l: Spelling)
    requires PartsOk(l)
    ensures var s := Spell(l);
            && |s| >= 10 && s[4] == '-' && s[7] == '-'
            && s[0..4] == l.year && s[5..7] == l.month && s[8..10] == l.day && s[10..] == TailString(l)
            && !IsSpace(s[0]) && !IsSpace(s[|s| - 1])
  {
    hide TailString, ZoneOk, ClockSpelled;
    TailReads(l);
    FieldEnds(l.year, 4);
    FieldEnds(l.day, 2);
    FixedPlaces(l.year, l.month, l.day, TailString(l));
    hide IsField;
    var s := Spell(l);
    var tail := TailString(l);
    assert tail != "" ==> s[|s| - 1] == tail[|tail| - 1];
  }

  lemma FixedPlaces(y: string, m: string, d: string, tail: string)
    requires |y| == 4 && |m| == 2 && |d| == 2
    ensures var s := y + "-" + m + "-" + d + tail;
            && |s| == 10 + |tail| && s[4] == '-' && s[7] == '-' && s[0] == y[0] && s[9] == d[1]
            && s[0..4] == y && s[5..7] == m && s[8..10] == d && s[10..] == tail
  {
  }

  /** What the parser answers for any text whose parts are there. */
  lemma PartsRead(w: string, l: Spelling, w': string)
    requires Spaces(w) && Spaces(w') && PartsOk(l)
    ensures ParseTimestamp(w + Spell(l) + w') == if SpellingOk(l) then Some(Instant(l)) else None
  {
    hide Trim, ParseInt, FieldValue, ReadTail, TailString, DaysFromCivil, CivilFromDays, Spell, ZoneMicros, ZoneOk,
      Spaces, ValidDate;
    SpellSlices(l);
    TrimOf(w, Spell(l), w');
    FieldReads(l.year);
    FieldReads(l.month);
    FieldReads(l.day);
    TailReads(l);
    TrimOfEmpty();
    var d := DateOf(l);
    DateTest(d);
  }

  lemma DateTest(d: Date)
    ensures ValidDate(d) ==> 1 <= d.month <= 12 && 1 <= d.day <= 31
    ensures 1 <= d.month <= 12 && 1 <= d.day <= 31 ==> (CivilFromDays(Days(d)) == d <==> ValidDate(d))
  {
    hide DaysFromCivil, CivilFromDays;
    if 1 <= d.month <= 12 && 1 <= d.day <= 31 { RoundTripTestsExistence(d); }
  }

  /** A text names an instant: white space, a spelling of it, white space. */
  ghost predicate Names(text: string, v: int) {
    exists w, l, w' :: IsSpelled(text, w, l, w') && SpellingOk(l) && Instant(l) == v
  }

  predicate IsSpelled(text: string, w: string, l: Spelling, w': string) {
    Spaces(w) && Spaces(w') && text == w + Spell(l) + w'
  }

  lemma OkIsParts(l: Spelling)
    requires SpellingOk(l)
    ensures PartsOk(l)
  {
  }

  /** The accepted language, exactly: a text reads as an instant if and only if it
      is one of that instant's spellings. */
  lemma AcceptedIff(text: string, v: int)
    ensures ParseTimestamp(text) == Some(v) <==> Names(text, v)
  {
    hide SpellingOk, Spell, Instant, Spaces, ParseTimestamp, PartsOk;
    if Names(text, v) {
      var w, l, w' :| IsSpelled(text, w, l, w') && SpellingOk(l) && Instant(l) == v;
      OkIsParts(l);
      PartsRead(w, l, w');
    }
    if ParseTimestamp(text) == Some(v) {
      var w, l, w' := PartsFound(text);
      PartsRead(w, l, w');
      assert IsSpelled(text, w, l, w');
    }
  }

  /** Whatever is accepted has all its parts. */
  lemma PartsFound(text: string) returns (w: string, l: Spelling, w': string)
    requires ParseTimestamp(text).Some?
    ensures IsSpelled(text, w, l, w') && PartsOk(l)
  {
    hide Trim, ParseInt, FieldValue, ReadTail, DaysFromCivil, CivilFromDays, ZoneOk, Spaces, ClockString, ZoneString,
      ClockSpelled, ParseTimestamp;
    var s := Trim(text);
    w, w' := TrimParts(text);
    AcceptedParts(text);
    FieldReads(s[0..4]);
    FieldReads(s[5..7]);
    FieldReads(s[8..10]);
    NothingAfter(s);
    var clock, zone := TailAccepted(s[10..]);
    l := Spelling(s[0..4], s[5..7], s[8..10], clock, zone);
    assert s == s[0..4] + "-" + s[5..7] + "-" + s[8..10] + s[10..];
  }

  lemma AcceptedParts(text: string)
    requires ParseTimestamp(text).Some?
    ensures var s := Trim(text);
            && |s| >= 10 && s[4] == '-' && s[7] == '-'
            && ParseInt(s[0..4]).Some? && ParseInt(s[5..7]).Some? && ParseInt(s[8..10]).Some?
            && ReadTail(s[10..]).Some? && Trim(ReadTail(s[10..]).value.1.rest) == ""
            && !IsSpace(s[|s| - 1])
  {
    hide Trim, ParseInt, ReadTail, DaysFromCivil, CivilFromDays, Spaces;
    var w, w' := TrimParts(text);
  }

  /** Nothing but the end is left when only white space is. */
  lemma NothingAfter(s: string)
    requires |s| >= 10 && !IsSpace(s[|s| - 1]) && ReadTail(s[10..]).Some?
    requires Trim(ReadTail(s[10..]).value.1.rest) == ""
    ensures ReadTail(s[10..]).value.1.rest == ""
  {
    hide Trim, ReadTail;
    var rest := ReadTail(s[10..]).value.1.rest;
    TrimmedToNothing(rest);
    RestIsSuffix(s[10..]);
  }

  lemma RestIsSuffix(rest: string)
    requires ReadTail(rest).Some?
    ensures var left := ReadTail(rest).value.1.rest;
            left != "" ==> rest != "" && left[|left| - 1] == rest[|rest| - 1]
  {
    hide ReadZone, ReadClock;
    if rest != "" {
      var c := ReadTail(rest).value.0;
      ZoneSuffix(c.rest);
      if rest[0] == 'T' || rest[0] == 't' || rest[0] == ' ' {
        var k := ClockAccepted(rest[0], rest[1..]);
      }
    }
  }

  lemma ZoneSuffix(rest: string)
    requires ReadZone(rest).Some?
    ensures var left := ReadZone(rest).value.rest;
            left != "" ==> rest != "" && left[|left| - 1] == rest[|rest| - 1]
  {
    hide ParseInt;
  }

  /** Beyond the documented forms: a sign in each field is read and accepted. */
  lemma SignedFieldsAreAccepted()
    ensures ParseTimestamp("2001-+1-+2") == Some(Days(Date(2001, 1, 2)) * MICROS_PER_DAY)
  {
    Digits();
    hide DaysFromCivil, ParseTimestamp, FieldValue, Spell;
    var l := Spelling("2001", "+1", "+2", None, Absent);
    SignedText(l);
    PartsRead("", l, "");
    assert "" + Spell(l) + "" == Spell(l);
  }

  lemma SignedText(l: Spelling)
    requires l == Spelling("2001", "+1", "+2", None, Absent)
    ensures PartsOk(l) && Spell(l) == "2001-+1-+2"
  {
    assert l.year + "-" == "2001-";
    assert "2001-" + l.month == "2001-+1";
    assert "2001-+1" + "-" + l.day == "2001-+1-+2";
  }

  lemma Digits()
    ensures FieldValue("2001") == 2001 && FieldValue("+1") == 1 && FieldValue("+2") == 2
  {
    var y := "2001";
    assert y[..3] == "200" && y[..3][..2] == "20" && y[..3][..2][..1] == "2" && "2"[..0] == "";
    assert Value("2") == 2 && Value("20") == 20 && Value("200") == 200;
    assert "+1"[1..] == "1" && "+2"[1..] == "2" && "1"[..0] == "";
    assert Value("1") == 1;
  }
}
