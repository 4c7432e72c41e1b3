/** FAT packed timestamps, and the civil-date formula against the calendar. */
module Time {
  import opened Bytes
  import opened Wrappers

  datatype FatTimestamp = FatTimestamp(unixSeconds: int, subsecNanos: int)

  /** Integer division of the source language: the quotient is rounded toward zero. */
  function TruncDiv(a: int, b: int): int
    requires b > 0
  {
    if a >= 0 then a / b else -(-a / b)
  }

  function Clamp(x: int, lo: int, hi: int): int {
    if x < lo then lo else if x > hi then hi else x
  }

  /** Days since 1970-01-01, by the era formula. */
  function DaysFromCivil(year: int, m: int, d: int): int {
    var y := if m <= 2 then year - 1 else year;
    var era := TruncDiv(if y >= 0 then y else y - 399, 400);
    var yoe := y - era * 400;
    var doy := MonthOffset(m) + d - 1;
    var doe := yoe * 365 + TruncDiv(yoe, 4) - TruncDiv(yoe, 100) + doy;
    era * 146_097 + doe - 719_468
  }

  /** Days from 1 March to the first of month `m`. */
  function MonthOffset(m: int): int {
    TruncDiv(153 * (if m > 2 then m - 3 else m + 9) + 2, 5)
  }

  /** Unset for a zero date; fields out of range are clamped. */
  function Decode(date: u16, time: u16, tenths: u8): Option<FatTimestamp> {
    if date == 0 then None
    else
      var days := DaysFromCivil(1980 + date / 512 % 128, Clamp(date / 32 % 16, 1, 12), Clamp(date % 32, 1, 31));
      var base := days * 86_400 + Min(time / 2048 % 32, 23) * 3600 + Min(time / 32 % 64, 59) * 60 + time % 32 * 2;
      Some(FatTimestamp(base + tenths / 100, tenths % 100 * 10_000_000))
  }

  // ----- The proleptic Gregorian calendar, day by day -----

  datatype Date = Date(y: int, m: int, d: int)

  predicate IsLeap(y: int) { y % 4 == 0 && (y % 100 != 0 || y % 400 == 0) }

  function DaysInMonth(y: int, m: int): int {
    if m == 2 then (if IsLeap(y) then 29 else 28)
    else if m == 4 || m == 6 || m == 9 || m == 11 then 30
    else 31
  }

  predicate IsDate(t: Date) { 1 <= t.m <= 12 && 1 <= t.d <= DaysInMonth(t.y, t.m) }

  function Next(t: Date): (n: Date)
    requires IsDate(t)
    ensures IsDate(n)
  {
    if t.d < DaysInMonth(t.y, t.m) then t.(d := t.d + 1)
    else if t.m < 12 then Date(t.y, t.m + 1, 1)
    else Date(t.y + 1, 1, 1)
  }

  function Prev(t: Date): (p: Date)
    requires IsDate(t)
    ensures IsDate(p) && Next(p) == t
  {
    if t.d > 1 then t.(d := t.d - 1)
    else if t.m > 1 then Date(t.y, t.m - 1, DaysInMonth(t.y, t.m - 1))
    else Date(t.y - 1, 12, 31)
  }

  /** The date `n` days after the epoch, counted one day at a time. */
  function DateAt(n: int): (t: Date)
    ensures IsDate(t)
    decreases if n < 0 then -n else n
  {
    if n == 0 then Date(1970, 1, 1)
    else if n > 0 then Next(DateAt(n - 1))
    else Prev(DateAt(n + 1))
  }

  function Days(t: Date): int { DaysFromCivil(t.y, t.m, t.d) }

  // ----- The formula is the calendar -----

  function ShiftedYear(y: int, m: int): int { if m <= 2 then y - 1 else y }

  /** Leap days up to the end of the shifted year. */
  function LeapDays(y: int): int { y / 4 - y / 100 + y / 400 }

  lemma ClosedForm(y: int, m: int, d: int)
    ensures DaysFromCivil(y, m, d)
         == 365 * ShiftedYear(y, m) + LeapDays(ShiftedYear(y, m)) + MonthOffset(m) + d - 1 - 719_468
  {
    var s := ShiftedYear(y, m);
    var era := s / 400;
    assert TruncDiv(if s >= 0 then s else s - 399, 400) == era;
    var yoe := s - era * 400;
    assert s / 4 == 100 * era + yoe / 4 && s / 100 == 4 * era + yoe / 100;
  }

  lemma LeapDayOnceALeapYear(y: int)
    ensures LeapDays(y) - LeapDays(y - 1) == if IsLeap(y) then 1 else 0
  {
    QuotientSteps(y, 4);
    QuotientSteps(y, 100);
    QuotientSteps(y, 400);
  }

  lemma QuotientSteps(y: int, k: int)
    requires k == 4 || k == 100 || k == 400
    ensures y / k - (y - 1) / k == if y % k == 0 then 1 else 0
  {}

  /** The 153/5 formula gives each month its length; February ends the shifted year. */
  lemma MonthStarts(m: int)
    requires 1 <= m <= 12
    ensures MonthOffset(3) == 0 && MonthOffset(1) == 306 && MonthOffset(2) == 337
    ensures m != 2 && m != 12 ==> MonthOffset(m + 1) == MonthOffset(m) + DaysInMonth(2000, m)
    ensures MonthOffset(12) + 31 == MonthOffset(1)
  {}

  /** The formula advances by exactly one from any date to the next. */
  lemma StepsByOne(t: Date)
    requires IsDate(t)
    ensures Days(Next(t)) == Days(t) + 1
  {
    var n := Next(t);
    ClosedForm(t.y, t.m, t.d);
    ClosedForm(n.y, n.m, n.d);
    LeapDayOnceALeapYear(t.y);
    MonthStarts(t.m);
    if t.d == DaysInMonth(t.y, t.m) && t.m != 2 && t.m != 12 {
      assert n == Date(t.y, t.m + 1, 1) && DaysInMonth(t.y, t.m) == DaysInMonth(2000, t.m);
    }
  }

  /** The formula counts days from the epoch, forwards and backwards. */
  lemma {:induction false} CountsDays(n: int)
    ensures Days(DateAt(n)) == n
    decreases if n < 0 then -n else n
  {
    if n > 0 {
      CountsDays(n - 1);
      StepsByOne(DateAt(n - 1));
    } else if n < 0 {
      CountsDays(n + 1);
      StepsByOne(DateAt(n));
    }
  }

  predicate Before(a: Date, b: Date) {
    a.y < b.y || (a.y == b.y && (a.m < b.m || (a.m == b.m && a.d < b.d)))
  }

  /** Later dates have larger day numbers. */
  lemma {:induction false} StrictlyMonotone(a: Date, b: Date)
    requires IsDate(a) && IsDate(b) && Before(a, b)
    ensures Days(a) < Days(b)
    decreases b.y - a.y, b.m - a.m + 12, b.d - a.d + 31
  {
    hide Days;
    StepsByOne(a);
    NextIsNext(a, b);
    if Before(Next(a), b) {
      StrictlyMonotone(Next(a), b);
    }
  }

  lemma NextIsNext(a: Date, b: Date)
    requires IsDate(a) && IsDate(b) && Before(a, b)
    ensures Next(a) == b || Before(Next(a), b)
  {}

  /** The day-by-day count inverts the formula on every date. */
  lemma DaysInvert(t: Date)
    requires IsDate(t)
    ensures DateAt(Days(t)) == t
  {
    var u := DateAt(Days(t));
    CountsDays(Days(t));
    if Before(t, u) {
      StrictlyMonotone(t, u);
    } else if Before(u, t) {
      StrictlyMonotone(u, t);
    }
  }

  // ----- Packed timestamps -----

  function PackedDate(date: u16): Date { Date(1980 + date / 512 % 128, date / 32 % 16, date % 32) }

  /** Every field of the packed pair names a real date and a real time of day. */
  predicate IsPacked(date: u16, time: u16) {
    date != 0 && IsDate(PackedDate(date)) && time / 2048 <= 23 && time / 32 % 64 <= 59 && time % 32 <= 29
  }

  /** On valid fields, a later packed (date, time) decodes to a later instant. */
  lemma DecodeIsMonotone(d1: u16, t1: u16, d2: u16, t2: u16, tenths: u8)
    requires IsPacked(d1, t1) && IsPacked(d2, t2)
    requires d1 < d2 || (d1 == d2 && t1 < t2)
    ensures Decode(d1, t1, tenths).value.unixSeconds < Decode(d2, t2, tenths).value.unixSeconds
    ensures Decode(d1, t1, tenths).value.subsecNanos == Decode(d2, t2, tenths).value.subsecNanos
  {
    SecondsOfDay(d1, t1, tenths);
    SecondsOfDay(d2, t2, tenths);
    if d1 < d2 {
      PackedOrder(d1, d2);
      StrictlyMonotone(PackedDate(d1), PackedDate(d2));
    } else {
      TimeOrder(t1, t2);
    }
  }

  lemma DateFields(date: u16)
    ensures date == 512 * (date / 512 % 128) + 32 * (date / 32 % 16) + date % 32
  {
    assert date / 512 == date / 32 / 16;
  }

  lemma PackedOrder(d1: u16, d2: u16)
    requires d1 < d2
    ensures Before(PackedDate(d1), PackedDate(d2))
  {
    DateFields(d1);
    DateFields(d2);
    var a, b := PackedDate(d1), PackedDate(d2);
    var x := 512 * (a.y - 1980) + 32 * a.m + a.d;
    assert x == d1;
    assert 0 <= a.m < 16 && 0 <= b.m < 16 && 0 <= a.d < 32 && 0 <= b.d < 32;
  }

  /** The time part of a valid timestamp, in two-second steps below one day. */
  function DaySeconds(time: u16): int { time / 2048 * 3600 + time / 32 % 64 * 60 + time % 32 * 2 }

  lemma TimeFields(time: u16)
    ensures time == 2048 * (time / 2048) + 32 * (time / 32 % 64) + time % 32
    ensures time / 2048 < 32 && time / 2048 % 32 == time / 2048
  {
    assert time / 2048 == time / 32 / 64;
  }

  lemma TimeOrder(t1: u16, t2: u16)
    requires t1 < t2 && t1 / 32 % 64 <= 59 && t2 / 32 % 64 <= 59 && t1 % 32 <= 29 && t2 % 32 <= 29
    ensures DaySeconds(t1) < DaySeconds(t2)
  {
    TimeFields(t1);
    TimeFields(t2);
    FieldOrder(t1 / 2048, t1 / 32 % 64, t1 % 32, t2 / 2048, t2 / 32 % 64, t2 % 32);
  }

  lemma FieldOrder(h1: nat, m1: nat, s1: nat, h2: nat, m2: nat, s2: nat)
    requires m1 <= 59 && m2 <= 59 && s1 <= 29 && s2 <= 29
    requires 2048 * h1 + 32 * m1 + s1 < 2048 * h2 + 32 * m2 + s2
    ensures 3600 * h1 + 60 * m1 + 2 * s1 < 3600 * h2 + 60 * m2 + 2 * s2
  {
    assert h1 < h2 || (h1 == h2 && (m1 < m2 || (m1 == m2 && s1 < s2)));
  }

  lemma SecondsOfDay(date: u16, time: u16, tenths: u8)
    requires IsPacked(date, time)
    ensures Decode(date, time, tenths).Some?
    ensures Decode(date, time, tenths).value.unixSeconds ==
            Days(PackedDate(date)) * 86_400 + DaySeconds(time) + tenths / 100
    ensures 0 <= DaySeconds(time) < 86_400
  {
    TimeFields(time);
    assert PackedDate(date).d <= 31;
  }

  /** A real date and time of day, n days after 1970-01-01 by the calendar, decode to those days and
      that time in seconds, and hundredths of a second carry into both parts. */
  lemma DecodeIsCivil(date: u16, time: u16, tenths: u8, n: int)
    requires IsPacked(date, time) && DateAt(n) == PackedDate(date)
    ensures Decode(date, time, tenths) == Some(FatTimestamp(
              86_400 * n + 3600 * (time / 2048) + 60 * (time / 32 % 64) + 2 * (time % 32) + tenths / 100,
              tenths % 100 * 10_000_000))
  {
    CountsDays(n);
    SecondsOfDay(date, time, tenths);
  }

  /** A zero date is no timestamp, whatever the rest says. */
  lemma ZeroDateIsUnset(date: u16, time: u16, tenths: u8)
    ensures Decode(date, time, tenths) == None <==> date == 0
  {}

  lemma LateFebruary()
    ensures DaysFromCivil(2021, 2, 31) == 18_689
    ensures DaysFromCivil(2021, 3, 1) == 18_687
  {
    ClosedForm(2021, 2, 31);
    ClosedForm(2021, 3, 1);
    MonthStarts(2);
  }

  /** Clamping keeps a day of 31 in every month, so the order breaks off the calendar:
      31 February 2021 packs below 1 March 2021 and decodes two days above it. */
  lemma DecodeOrderBreaksOffCalendar(feb31: u16, mar1: u16)
    requires feb31 == 41 * 512 + 2 * 32 + 31 && mar1 == 41 * 512 + 3 * 32 + 1
    ensures feb31 < mar1 && Decode(feb31, 0, 0).Some? && Decode(mar1, 0, 0).Some?
    ensures Decode(feb31, 0, 0).value.unixSeconds == Decode(mar1, 0, 0).value.unixSeconds + 2 * 86_400
  {
    LateFebruary();
    assert feb31 / 512 % 128 == 41 && feb31 / 32 % 16 == 2 && feb31 % 32 == 31;
    assert mar1 / 512 % 128 == 41 && mar1 / 32 % 16 == 3 && mar1 % 32 == 1;
  }

  /** The seconds field is not clamped, so the order breaks on real dates too: on any date, 10:00
      with a seconds field of 31 packs below 10:01 and decodes two seconds above it. */
  lemma SecondsAreNotClamped(date: u16, late: u16, next: u16, tenths: u8)
    requires date != 0 && late == 10 * 2048 + 31 && next == 10 * 2048 + 32
    ensures late < next && Decode(date, late, tenths).Some? && Decode(date, next, tenths).Some?
    ensures Decode(date, late, tenths).value.unixSeconds == Decode(date, next, tenths).value.unixSeconds + 2
  {
    assert late / 2048 % 32 == 10 && late / 32 % 64 == 0 && late % 32 == 31;
    assert next / 2048 % 32 == 10 && next / 32 % 64 == 1 && next % 32 == 0;
  }

  // ----- Exactly which packed pairs keep the order -----

  predicate Earlier(d1: u16, t1: u16, d2: u16, t2: u16) { d1 < d2 || (d1 == d2 && t1 < t2) }

  function Instant(date: u16, time: u16, tenths: u8): int
    requires date != 0
  {
    Decode(date, time, tenths).value.unixSeconds
  }

  /** The pair decodes strictly between the real instants packed below it and those packed above. */
  ghost predicate KeepsOrder(date: u16, time: u16)
    requires date != 0
  {
    forall d: u16, t: u16, tenths: u8 | IsPacked(d, t) ::
      && (Earlier(date, time, d, t) ==> Instant(date, time, tenths) < Instant(d, t, tenths))
      && (Earlier(d, t, date, time) ==> Instant(d, t, tenths) < Instant(date, time, tenths))
  }

  /** Past the last representable minute: 23:59 with a seconds field of 30 or 31 on 31 December
      2107, or what is clamped to it. */
  predicate IsPastLast(date: u16, time: u16) {
    date / 512 % 128 == 127 && date / 32 % 16 >= 12 && date % 32 == 31 && IsPastMidnight(time)
  }

  /** A time that decodes at or past the end of its day. */
  predicate IsPastMidnight(time: u16) { time / 2048 >= 23 && time / 32 % 64 >= 59 && time % 32 >= 30 }

  lemma PastMidnight(time: u16)
    ensures ClampedSeconds(0) == 0
    ensures if IsPastMidnight(time) then 86_400 <= ClampedSeconds(time) <= 86_402 else ClampedSeconds(time) <= 86_398
  {
    FieldsPastMidnight(time / 2048, time / 32 % 64, time % 32);
  }

  lemma FieldsPastMidnight(h: nat, m: nat, s: nat)
    requires s <= 31
    ensures var x := Min(h, 23) * 3600 + Min(m, 59) * 60 + s * 2;
            if h >= 23 && m >= 59 && s >= 30 then 86_400 <= x <= 86_402 else x <= 86_398
  {}

  function Pack(y: nat, m: nat, d: nat): (date: u16)
    requires y < 128 && m < 16 && d < 32
    ensures date / 512 % 128 == y && date / 32 % 16 == m && date % 32 == d
    ensures m > 0 || d > 0 ==> date != 0
  {
    var date := 512 * y + 32 * m + d;
    assert date / 32 == 16 * y + m;
    date
  }

  function PackTime(h: nat, m: nat, s: nat): (time: u16)
    requires h < 32 && m < 64 && s < 32
    ensures time / 2048 == h && time / 32 % 64 == m && time % 32 == s
  {
    var time := 2048 * h + 32 * m + s;
    assert time / 32 == 64 * h + m;
    time
  }

  /** The decoded fields of a pair, after clamping. */
  function ClampedDate(date: u16): Date {
    Date(1980 + date / 512 % 128, Clamp(date / 32 % 16, 1, 12), Clamp(date % 32, 1, 31))
  }

  function ClampedSeconds(time: u16): nat {
    Min(time / 2048, 23) * 3600 + Min(time / 32 % 64, 59) * 60 + time % 32 * 2
  }

  lemma InstantOf(date: u16, time: u16, tenths: u8)
    requires date != 0
    ensures Instant(date, time, tenths) == Days(ClampedDate(date)) * 86_400 + ClampedSeconds(time) + tenths / 100
  {
    TimeFields(time);
  }

  /** A real pair on the wrong side of (date, time). */
  predicate Breaks(date: u16, time: u16, d: u16, t: u16)
    requires date != 0
  {
    && IsPacked(d, t)
    && var x, y := Days(ClampedDate(date)) * 86_400 + ClampedSeconds(time),
                   Days(ClampedDate(d)) * 86_400 + ClampedSeconds(t);
    (Earlier(date, time, d, t) && x >= y) || (Earlier(d, t, date, time) && x <= y)
  }

  lemma BrokenOrder(date: u16, time: u16, d: u16, t: u16)
    requires date != 0 && Breaks(date, time, d, t)
    ensures !KeepsOrder(date, time)
  {
    InstantOf(date, time, 0);
    InstantOf(d, t, 0);
  }

  /** Days of a month: later days, and days past the end of a month, have larger numbers. */
  lemma DayOfMonth(y: int, m: int, d: int, e: int)
    ensures DaysFromCivil(y, m, d) - DaysFromCivil(y, m, e) == d - e
  {
    ClosedForm(y, m, d);
    ClosedForm(y, m, e);
  }

  lemma FirstOfNextMonth(y: int, m: int)
    requires 1 <= m <= 12
    ensures DaysFromCivil(y, m, DaysInMonth(y, m)) + 1
         == if m < 12 then DaysFromCivil(y, m + 1, 1) else DaysFromCivil(y + 1, 1, 1)
  {
    StepsByOne(Date(y, m, DaysInMonth(y, m)));
  }

  /** A zero day or month is raised to the first, at or past a real midnight packed above it. */
  lemma ZeroDayBreaks(date: u16, time: u16) returns (d: u16)
    requires date != 0 && date / 32 % 16 <= 12 && (date / 32 % 16 == 0 || date % 32 == 0)
    ensures Breaks(date, time, d, 0)
  {
    hide DaysFromCivil, ClampedSeconds;
    var y, m, day := date / 512 % 128, date / 32 % 16, date % 32;
    PastMidnight(0);
    d := Pack(y, Clamp(m, 1, 12), 1);
    DayOfMonth(1980 + y, Clamp(m, 1, 12), Clamp(day, 1, 31), 1);
    DateFields(date);
    DateFields(d);
  }

  /** A day past the end of its month decodes at or past the first of the next. */
  lemma LateDayBreaks(date: u16, time: u16) returns (d: u16)
    requires date != 0 && 1 <= date / 32 % 16 < 12
    requires date % 32 > DaysInMonth(1980 + date / 512 % 128, date / 32 % 16)
    ensures Breaks(date, time, d, 0)
  {
    hide DaysFromCivil, ClampedSeconds;
    var y, m, day := date / 512 % 128, date / 32 % 16, date % 32;
    PastMidnight(0);
    d := Pack(y, m + 1, 1);
    FirstOfNextMonth(1980 + y, m);
    DayOfMonth(1980 + y, m, day, DaysInMonth(1980 + y, m));
    DateFields(date);
    DateFields(d);
  }

  /** A month field above 12 is clamped to December, below real instants or onto the next year. */
  lemma BadMonthBreaks(date: u16, time: u16) returns (d: u16, t: u16)
    requires date / 32 % 16 > 12 && !IsPastLast(date, time)
    ensures date != 0 && Breaks(date, time, d, t)
  {
    hide DaysFromCivil, ClampedSeconds;
    var y, day := date / 512 % 128, date % 32;
    DateFields(date);
    DayOfMonth(1980 + y, 12, Clamp(day, 1, 31), 31);
    PastMidnight(time);
    if day == 31 && IsPastMidnight(time) {
      d, t := Pack(y + 1, 1, 1), 0;
      FirstOfNextMonth(1980 + y, 12);
    } else {
      d, t := Pack(y, 12, 31), PackTime(23, 59, 29);
      LastMinute(t);
    }
    DateFields(d);
  }

  lemma LastMinute(last: u16)
    requires last / 2048 == 23 && last / 32 % 64 == 59 && last % 32 == 29
    ensures ClampedSeconds(last) == 86_398
  {}

  /** On a real date, a time past midnight decodes at or past the start of the next day. */
  lemma NextDayBreaks(date: u16, time: u16) returns (d: u16)
    requires date != 0 && IsDate(PackedDate(date)) && IsPastMidnight(time) && !IsPastLast(date, time)
    ensures Breaks(date, time, d, 0)
  {
    hide DaysFromCivil, ClampedSeconds;
    var n := Next(PackedDate(date));
    StepsByOne(PackedDate(date));
    PastMidnight(time);
    d := Pack(n.y - 1980, n.m, n.d);
    DateFields(date);
    DateFields(d);
  }

  /** Any other time out of range decodes onto or across a later minute of its day. */
  lemma BadTimeBreaks(date: u16, time: u16) returns (t: u16)
    requires date != 0 && IsDate(PackedDate(date)) && !IsPacked(date, time) && !IsPastMidnight(time)
    ensures Breaks(date, time, date, t)
  {
    hide DaysFromCivil;
    var h, m, s := time / 2048, time / 32 % 64, time % 32;
    TimeFields(time);
    if h >= 24 {
      t := PackTime(23, 59, 29);
    } else if s < 30 {
      t := PackTime(h, 59, 29);
    } else if m < 59 {
      t := PackTime(h, m + 1, 0);
    } else {
      t := PackTime(h + 1, 0, 0);
    }
    TimeFields(t);
  }

  lemma RealPairsKeepOrder(date: u16, time: u16)
    requires IsPacked(date, time)
    ensures KeepsOrder(date, time)
  {
    forall d: u16, t: u16, tenths: u8 | IsPacked(d, t)
      ensures Earlier(date, time, d, t) ==> Instant(date, time, tenths) < Instant(d, t, tenths)
      ensures Earlier(d, t, date, time) ==> Instant(d, t, tenths) < Instant(date, time, tenths)
    {
      if Earlier(date, time, d, t) { DecodeIsMonotone(date, time, d, t, tenths); }
      if Earlier(d, t, date, time) { DecodeIsMonotone(d, t, date, time, tenths); }
    }
  }

  lemma PastLastKeepsOrder(date: u16, time: u16)
    requires date != 0 && IsPastLast(date, time)
    ensures KeepsOrder(date, time)
  {
    hide DaysFromCivil, Decode;
    var last := Date(2107, 12, 31);
    forall d: u16, t: u16, tenths: u8 | IsPacked(d, t)
      ensures Earlier(d, t, date, time) && Instant(d, t, tenths) < Instant(date, time, tenths)
    {
      InstantOf(date, time, tenths);
      InstantOf(d, t, tenths);
      if PackedDate(d) != last { StrictlyMonotone(PackedDate(d), last); }
      DateFields(d);
      DateFields(date);
      TimeFields(t);
      TimeFields(time);
    }
  }

  /** A set pair keeps its place among all real instants exactly when all its fields are real, or
      it lies past the last of them. */
  lemma OrderIsKeptIff(date: u16, time: u16)
    requires date != 0
    ensures KeepsOrder(date, time) <==> IsPacked(date, time) || IsPastLast(date, time)
  {
    hide KeepsOrder, Breaks;
    if IsPacked(date, time) {
      RealPairsKeepOrder(date, time);
    } else if IsPastLast(date, time) {
      PastLastKeepsOrder(date, time);
    } else {
      var d: u16, t: u16;
      if date / 32 % 16 > 12 {
        d, t := BadMonthBreaks(date, time);
      } else if IsDate(PackedDate(date)) {
        if IsPastMidnight(time) {
          d := NextDayBreaks(date, time);
          t := 0;
        } else {
          d := date;
          t := BadTimeBreaks(date, time);
        }
      } else if date / 32 % 16 == 0 || date % 32 == 0 {
        d := ZeroDayBreaks(date, time);
        t := 0;
      } else {
        d := LateDayBreaks(date, time);
        t := 0;
      }
      BrokenOrder(date, time, d, t);
    }
  }
}
