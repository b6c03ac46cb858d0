/** breakTime and makeTime of TimeLib.cpp: seconds since 1970 against calendar fields. */
module Calendar {
  import opened Arithmetic

  const SECS_PER_MIN: nat := 60
  const SECS_PER_HOUR: nat := 3600
  const SECS_PER_DAY: nat := 86400
  const TWO32: nat := 0x1_0000_0000

  type Byte = b: int | 0 <= b < 256

  /** tmElements_t; the year is counted from 1970 and Sunday is weekday 1. */
  datatype Tm = Tm(second: Byte, minute: Byte, hour: Byte, wday: Byte, day: Byte, month: Byte, year: Byte)

  predicate Leap(year: nat) {
    (1970 + year) % 4 == 0 && ((1970 + year) % 100 != 0 || (1970 + year) % 400 == 0)
  }

  function YearLength(year: nat): nat {
    if Leap(year) then 366 else 365
  }

  const MONTH_DAYS: seq<nat> := [31, 28, 31, 30, 31, 30, 31, 31, 30, 31, 30, 31]

  /** Days of month `month` (1..12). */
  function MonthLength(year: nat, month: nat): (r: nat)
    requires 1 <= month <= 12
    ensures 28 <= r <= 31
  {
    if month == 2 && Leap(year) then 29 else MONTH_DAYS[month - 1]
  }

  /** Days from 1970-01-01 to the first of January of `year`. */
  function DaysToYear(year: nat): (r: nat)
    ensures 365 * year <= r <= 366 * year
  {
    if year == 0 then 0 else DaysToYear(year - 1) + YearLength(year - 1)
  }

  /** Days of `year` before month `month` (1..13). */
  function DaysToMonth(year: nat, month: nat): (r: nat)
    requires 1 <= month <= 13
    ensures 28 * (month - 1) <= r <= 31 * (month - 1)
  {
    if month == 1 then 0 else DaysToMonth(year, month - 1) + MonthLength(year, month - 1)
  }

  lemma NextYear(y: nat)
    ensures DaysToYear(y + 1) == DaysToYear(y) + YearLength(y)
  {
  }

  lemma MonthsFillYear(year: nat)
    ensures DaysToMonth(year, 13) == YearLength(year)
  {
    var leap := YearLength(year) - 365;
    assert DaysToMonth(year, 2) == 31;
    assert DaysToMonth(year, 3) == 59 + leap;
    assert DaysToMonth(year, 4) == 90 + leap;
    assert DaysToMonth(year, 5) == 120 + leap;
    assert DaysToMonth(year, 6) == 151 + leap;
    assert DaysToMonth(year, 7) == 181 + leap;
    assert DaysToMonth(year, 8) == 212 + leap;
    assert DaysToMonth(year, 9) == 243 + leap;
    assert DaysToMonth(year, 10) == 273 + leap;
    assert DaysToMonth(year, 11) == 304 + leap;
    assert DaysToMonth(year, 12) == 334 + leap;
  }

  // ---------- the Gregorian calendar without loops or tables ----------

  /** Thirty days have September, April, June and November. */
  function DaysIn(year: nat, month: nat): nat {
    var y := 1970 + year;
    if month == 2 then (if y % 400 == 0 || (y % 100 != 0 && y % 4 == 0) then 29 else 28)
    else if month in {4, 6, 9, 11} then 30
    else 31
  }

  /** Days before the year: 365 each, one more for every fourth year, but of the centuries only
      for every fourth. */
  function YearsBefore(year: nat): int {
    365 * year + (1969 + year) / 4 - (1969 + year) / 100 + (1969 + year) / 400 - 477
  }

  /** Days before the month: from March on the months run 31, 30, 31, 30, 31 over and over. */
  function MonthsBefore(year: nat, month: nat): int {
    if month <= 2 then 31 * (month - 1) else 31 + DaysIn(year, 2) + (153 * (month - 3) + 2) / 5
  }

  /** The fields name a day of the calendar and a time of day. */
  predicate OnCalendar(tm: Tm) {
    && tm.second < 60 && tm.minute < 60 && tm.hour < 24
    && 1 <= tm.month <= 12 && 1 <= tm.day <= DaysIn(tm.year, tm.month)
  }

  /** Seconds from 1970-01-01 00:00:00 to the fields. */
  function SecondsTo(tm: Tm): int {
    86400 * (YearsBefore(tm.year) + MonthsBefore(tm.year, tm.month) + tm.day - 1)
      + 3600 * tm.hour + 60 * tm.minute + tm.second
  }

  /** A quotient grows with the multiples of its divisor. */
  lemma NextQuotient(n: nat, d: nat)
    requires d > 0
    ensures (n + 1) / d == n / d + if (n + 1) % d == 0 then 1 else 0
  {
    var q, r := n / d, n % d;
    if r + 1 == d {
      DivMod(n + 1, d, q + 1, 0);
    } else {
      DivMod(n + 1, d, q, r + 1);
    }
  }

  lemma MultipleOf(n: nat, d: nat, k: nat)
    requires d > 0 && k > 0 && n % (d * k) == 0
    ensures n % d == 0
  {
    var q := n / (d * k);
    assert n == (d * k) * q == d * (k * q);
    DivMod(n, d, k * q, 0);
  }

  /** Years that are multiples of 4, less those of 100, plus those of 400. */
  lemma LeapCount(n: nat, leap: bool)
    requires leap <==> n % 4 == 0 && (n % 100 != 0 || n % 400 == 0)
    ensures (if leap then 1 else 0)
         == (if n % 4 == 0 then 1 else 0) - (if n % 100 == 0 then 1 else 0) + (if n % 400 == 0 then 1 else 0)
  {
    if n % 100 == 0 {
      MultipleOf(n, 4, 25);
    }
    if n % 400 == 0 {
      MultipleOf(n, 100, 4);
    }
  }

  lemma {:induction false} DaysToYearClosed(year: nat)
    ensures DaysToYear(year) == YearsBefore(year)
  {
    if year > 0 {
      DaysToYearClosed(year - 1);
      NextQuotient(1968 + year, 4);
      NextQuotient(1968 + year, 100);
      NextQuotient(1968 + year, 400);
      LeapCount(1969 + year, Leap(year - 1));
      OneYearMore(year, Leap(year - 1), 1969 + year);
    }
  }

  lemma OneYearMore(year: nat, leap: bool, n: nat)
    requires year > 0 && n == 1969 + year
    requires n / 4 == (n - 1) / 4 + (if n % 4 == 0 then 1 else 0)
    requires n / 100 == (n - 1) / 100 + (if n % 100 == 0 then 1 else 0)
    requires n / 400 == (n - 1) / 400 + (if n % 400 == 0 then 1 else 0)
    requires (if leap then 1 else 0)
         == (if n % 4 == 0 then 1 else 0) - (if n % 100 == 0 then 1 else 0) + (if n % 400 == 0 then 1 else 0)
    ensures YearsBefore(year) == YearsBefore(year - 1) + 365 + if leap then 1 else 0
  {
  }

  /** The table of month lengths and the leap test are those of the calendar... */
  lemma MonthLengthIs(year: nat, month: nat)
    requires 1 <= month <= 12
    ensures MonthLength(year, month) == DaysIn(year, month)
  {
  }

  /** ...and so are the days before each month. */
  lemma {:induction false} DaysToMonthClosed(year: nat, month: nat)
    requires 1 <= month <= 13
    ensures DaysToMonth(year, month) == MonthsBefore(year, month)
  {
    if month > 1 {
      DaysToMonthClosed(year, month - 1);
      MonthLengthIs(year, month - 1);
    }
  }

  lemma InstantClosed(tm: Tm)
    requires 1 <= tm.month <= 13
    ensures Instant(tm) == SecondsTo(tm)
  {
    DaysToYearClosed(tm.year);
    DaysToMonthClosed(tm.year, tm.month);
  }

  /** The days of the week follow one another, and 1 January 1970 was a Thursday. */
  lemma WeekdayNext(days: nat)
    ensures Weekday(0) == 5
    ensures Weekday(days + 1) == if Weekday(days) == 7 then 1 else Weekday(days) + 1
  {
  }

  /** What breakTime and makeTime share: the fields belong to an instant exactly when they are on
      the calendar, that many seconds after 1970, on its weekday. */
  lemma DateMeaning(tm: Tm, t: nat)
    ensures IsDateOf(tm, t) <==> OnCalendar(tm) && SecondsTo(tm) == t && tm.wday == Weekday(t / 86400)
  {
    if 1 <= tm.month <= 12 {
      MonthLengthIs(tm.year, tm.month);
      InstantClosed(tm);
      if ValidDate(tm) {
        TimeOfDay(tm);
      }
    }
  }

  lemma {:induction false} DaysToYearMono(a: nat, b: nat)
    requires a <= b
    ensures DaysToYear(a) + 365 * (b - a) <= DaysToYear(b)
  {
    if a < b {
      DaysToYearMono(a, b - 1);
    }
  }

  lemma {:induction false} DaysToMonthMono(year: nat, a: nat, b: nat)
    requires 1 <= a <= b <= 13
    ensures DaysToMonth(year, a) + 28 * (b - a) <= DaysToMonth(year, b)
  {
    if a < b {
      DaysToMonthMono(year, a, b - 1);
    }
  }

  // ---------- dates ----------

  predicate ValidDate(tm: Tm) {
    && tm.second < 60 && tm.minute < 60 && tm.hour < 24
    && 1 <= tm.month <= 12
    && 1 <= tm.day <= MonthLength(tm.year, tm.month)
  }

  function DayNumber(tm: Tm): int
    requires tm.month <= 13
  {
    DaysToYear(tm.year) + DaysToMonth(tm.year, if tm.month == 0 then 1 else tm.month) + tm.day - 1
  }

  /** The exact instant of the fields, before truncation to 32 bits. */
  function Instant(tm: Tm): int
    requires tm.month <= 13
  {
    SECS_PER_DAY * DayNumber(tm) + SECS_PER_HOUR * tm.hour + SECS_PER_MIN * tm.minute + tm.second
  }

  function Weekday(days: nat): (w: nat)
    ensures 1 <= w <= 7
  {
    (days + 4) % 7 + 1
  }

  /** The fields are a valid date, with its weekday, at instant `t`. */
  predicate IsDateOf(tm: Tm, t: nat) {
    ValidDate(tm) && Instant(tm) == t && DayNumber(tm) >= 0 && tm.wday == Weekday(DayNumber(tm))
  }

  // ---------- breakTime ----------

  /** Some year holds day `days`, from `year` on. */
  lemma {:induction false} FindYear(days: nat, year: nat) returns (r: nat)
    requires DaysToYear(year) <= days
    ensures DaysToYear(r) <= days < DaysToYear(r + 1)
    decreases days - DaysToYear(year)
  {
    if days < DaysToYear(year + 1) {
      r := year;
    } else {
      r := FindYear(days, year + 1);
    }
  }

  /** Some month holds day `d` of `year`, from `month` on. */
  lemma {:induction false} FindMonth(year: nat, d: nat, month: nat) returns (r: nat)
    requires 1 <= month <= 12 && DaysToMonth(year, month) <= d < YearLength(year)
    ensures 1 <= r <= 12 && DaysToMonth(year, r) <= d < DaysToMonth(year, r + 1)
    decreases 13 - month
  {
    MonthsFillYear(year);
    if d < DaysToMonth(year, month + 1) {
      r := month;
    } else {
      r := FindMonth(year, d, month + 1);
    }
  }

  lemma SplitSeconds(secs: nat)
    requires secs < SECS_PER_DAY
    ensures secs / 3600 < 24 && secs == SECS_PER_HOUR * (secs / 3600) + SECS_PER_MIN * (secs / 60 % 60) + secs % 60
  {
    DivMod(secs / 60, 60, secs / 3600, secs / 60 - 60 * (secs / 3600));
  }

  /** Every 32-bit time has a date. */
  lemma DateExists(t: nat) returns (tm: Tm)
    requires t < TWO32
    ensures IsDateOf(tm, t)
  {
    var days, secs := t / SECS_PER_DAY, t % SECS_PER_DAY;
    var year := FindYear(days, 0);
    var d := days - DaysToYear(year);
    var month := FindMonth(year, d, 1);
    SplitSeconds(secs);
    tm := Tm(secs % 60, secs / 60 % 60, secs / 3600, Weekday(days), d - DaysToMonth(year, month) + 1, month, year);
  }

  lemma HasDate(t: nat)
    requires t < TWO32
    ensures exists tm :: IsDateOf(tm, t)
  {
    var tm := DateExists(t);
  }

  /** The date of a 32-bit time; by DateUnique there is only one. */
  ghost function BreakTime(t: nat): Tm
    requires t < TWO32
  {
    HasDate(t);
    var tm :| IsDateOf(tm, t);
    tm
  }

  /** breakTime: divide off the clock fields, then step years and months. The fields are those
      of the only valid date at this instant. */
  method BreakTimeLoop(timeInput: nat) returns (tm: Tm)
    requires timeInput < TWO32
    ensures IsDateOf(tm, timeInput)
    ensures OnCalendar(tm) && SecondsTo(tm) == timeInput && tm.wday == Weekday(timeInput / 86400)
  {
    var second, minute, hour, time := SplitClock(timeInput);
    var wday := Weekday(time);
    var year, days := YearLoop(time);
    var month, day := MonthLoop(year, time - days);
    tm := Tm(second, minute, hour, wday, day + 1, month + 1, year);
    DateMeaning(tm, timeInput);
  }

  /** The successive divisions by 60, 60 and 24. */
  method SplitClock(timeInput: nat) returns (second: Byte, minute: Byte, hour: Byte, time: nat)
    requires timeInput < TWO32
    ensures second < 60 && minute < 60 && hour < 24 && time <= 49710
    ensures timeInput == SECS_PER_DAY * time + SECS_PER_HOUR * hour + SECS_PER_MIN * minute + second
  {
    time := timeInput;
    second := time % 60;
    time := time / 60;
    minute := time % 60;
    time := time / 60;
    hour := time % 24;
    time := time / 24;
  }

  /** Step whole years while the days fit; `days` counts those before the year found. */
  method YearLoop(time: nat) returns (year: Byte, days: nat)
    requires time <= 49710
    ensures days == DaysToYear(year)
    ensures days <= time && time < days + YearLength(year)
  {
    year := 0;
    days := YearLength(0);
    while days <= time
      invariant days == DaysToYear(year) + YearLength(year) && DaysToYear(year) <= time
      decreases 137 - year
    {
      year := year + 1;
      days := days + YearLength(year);
    }
    days := days - YearLength(year);
  }

  /** Step whole months while the days fit; months and the remaining days count from 0. */
  method MonthLoop(year: nat, dayOfYear: nat) returns (month: nat, time: nat)
    requires dayOfYear < YearLength(year)
    ensures month < 12 && time < MonthLength(year, month + 1)
    ensures dayOfYear == DaysToMonth(year, month + 1) + time
  {
    month, time := 0, dayOfYear;
    MonthsFillYear(year);
    while month < 12
      invariant 0 <= month < 12
      invariant DaysToMonth(year, month + 1) + time == dayOfYear
      decreases 12 - month
    {
      var monthLength := if month == 1 then (if Leap(year) then 29 else 28) else MONTH_DAYS[month];
      if time >= monthLength {
        time := time - monthLength;
      } else {
        break;
      }
      month := month + 1;
    }
  }

  // ---------- makeTime ----------

  /** Truncation to 32 bits: the value in range that differs by a multiple of 2^32. */
  function U32(x: int): (r: nat)
    ensures r < TWO32
    decreases if x < 0 then TWO32 - x else x
  {
    if x < 0 then U32(x + TWO32)
    else if x >= TWO32 then U32(x - TWO32)
    else x
  }

  lemma InRangeStays(x: int)
    requires 0 <= x < TWO32
    ensures U32(x) == x
  {
  }

  lemma {:induction false} U32Mod(x: int)
    ensures U32(x) == x % TWO32
    decreases if x < 0 then TWO32 - x else x
  {
    if x < 0 {
      U32Mod(x + TWO32);
      DivMod(x, TWO32, (x + TWO32) / TWO32 - 1, (x + TWO32) % TWO32);
    } else if x >= TWO32 {
      U32Mod(x - TWO32);
      DivMod(x, TWO32, (x - TWO32) / TWO32 + 1, (x - TWO32) % TWO32);
    } else {
      DivMod(x, TWO32, 0, x);
    }
  }

  /** One truncated sum; `wraps` counts the multiples of 2^32 dropped. */
  method Add32(a: nat, b: int) returns (r: nat, ghost wraps: int)
    ensures r < TWO32 && a + b == r + TWO32 * wraps
  {
    r := U32(a + b);
    wraps := (a + b) / TWO32;
    U32Mod(a + b);
  }

  /** The accumulating loops of makeTime; every sum is truncated to 32 bits. */
  method MakeTimeLoop(tm: Tm) returns (t: nat)
    requires tm.month <= 13
    ensures t == MakeTime(tm)
    ensures 1 <= tm.month ==> t == SecondsTo(tm) % 0x1_0000_0000
  {
    ghost var years, months, rest;
    t, years := AddYears(tm.year);
    t, months := AddMonths(tm.year, tm.month, t);
    t, rest := AddDayAndTime(tm, t);
    ghost var dropped := years + months + rest;
    assert t + TWO32 * dropped == Instant(tm);
    DivMod(Instant(tm), TWO32, dropped, t);
    U32Mod(Instant(tm));
    if 1 <= tm.month {
      InstantClosed(tm);
    }
  }

  /** The days of the years before, leap days one by one. */
  method AddYears(year: nat) returns (t: nat, ghost dropped: int)
    ensures t < TWO32 && t + TWO32 * dropped == SECS_PER_DAY * DaysToYear(year)
  {
    ghost var w := 0;
    t, dropped := Add32(0, year * (SECS_PER_DAY * 365));
    var i := 0;
    while i < year
      invariant 0 <= i <= year && t < TWO32
      invariant t + TWO32 * dropped == SECS_PER_DAY * (365 * (year - i) + DaysToYear(i))
    {
      if Leap(i) {
        t, w := Add32(t, SECS_PER_DAY);
        dropped := dropped + w;
      }
      i := i + 1;
    }
  }

  /** The days of the months before. */
  method AddMonths(year: nat, month: nat, t0: nat) returns (t: nat, ghost dropped: int)
    requires month <= 13 && t0 < TWO32
    ensures t < TWO32
    ensures t + TWO32 * dropped == t0 + SECS_PER_DAY * DaysToMonth(year, if month == 0 then 1 else month)
  {
    ghost var w := 0;
    t, dropped := t0, 0;
    var i := 1;
    while i < month
      invariant 1 <= i <= 13 && (i <= month || i == 1) && t < TWO32
      invariant t + TWO32 * dropped == t0 + SECS_PER_DAY * DaysToMonth(year, i)
    {
      var length := if i == 2 && Leap(year) then 29 else MONTH_DAYS[i - 1];
      t, w := Add32(t, SECS_PER_DAY * length);
      dropped := dropped + w;
      i := i + 1;
    }
  }

  /** The last four additions. */
  method AddDayAndTime(tm: Tm, t0: nat) returns (t: nat, ghost dropped: int)
    requires t0 < TWO32
    ensures t < TWO32
    ensures t + TWO32 * dropped == t0 + (tm.day - 1) * SECS_PER_DAY + tm.hour * SECS_PER_HOUR
                                      + tm.minute * SECS_PER_MIN + tm.second
  {
    ghost var w := 0;
    t, dropped := Add32(t0, (tm.day - 1) * SECS_PER_DAY);
    t, w := Add32(t, tm.hour * SECS_PER_HOUR);
    dropped := dropped + w;
    t, w := Add32(t, tm.minute * SECS_PER_MIN);
    dropped := dropped + w;
    t, w := Add32(t, tm.second);
    dropped := dropped + w;
  }

  function MakeTime(tm: Tm): nat
    requires tm.month <= 13
  {
    U32(Instant(tm))
  }

  // ---------- inverse laws ----------

  /** makeTime undoes breakTime on every 32-bit time. */
  lemma MakeAfterBreak(t: nat)
    requires t < TWO32
    ensures MakeTime(BreakTime(t)) == t
  {
    HasDate(t);
    MakeOfDate(BreakTime(t), t);
  }

  lemma MakeOfDate(tm: Tm, t: nat)
    requires IsDateOf(tm, t) && t < TWO32
    ensures MakeTime(tm) == t
  {
  }

  /** Two valid dates at the same instant have the same fields. */
  lemma DateUnique(a: Tm, b: Tm)
    requires ValidDate(a) && ValidDate(b) && Instant(a) == Instant(b)
    ensures a.(wday := 0) == b.(wday := 0)
  {
    TimeOfDay(a);
    TimeOfDay(b);
    SameDay(a, b);
  }

  lemma SameDay(a: Tm, b: Tm)
    requires ValidDate(a) && ValidDate(b) && DayNumber(a) == DayNumber(b)
    ensures a.year == b.year && a.month == b.month && a.day == b.day
  {
    YearBounds(a);
    YearBounds(b);
    SameYear(DayNumber(a), a.year, b.year);
    SameDayOfYear(a, b);
  }

  lemma SameDayOfYear(a: Tm, b: Tm)
    requires ValidDate(a) && ValidDate(b) && DayNumber(a) == DayNumber(b) && a.year == b.year
    ensures a.month == b.month && a.day == b.day
  {
    MonthBounds(a);
    MonthBounds(b);
    SameMonth(a.year, DayNumber(a) - DaysToYear(a.year), a.month, b.month);
  }

  lemma MonthBounds(tm: Tm)
    requires ValidDate(tm)
    ensures DaysToMonth(tm.year, tm.month) <= DayNumber(tm) - DaysToYear(tm.year) < DaysToMonth(tm.year, tm.month + 1)
    ensures DayNumber(tm) - DaysToYear(tm.year) - DaysToMonth(tm.year, tm.month) == tm.day - 1
  {
  }

  lemma SameYear(days: int, a: nat, b: nat)
    requires DaysToYear(a) <= days < DaysToYear(a + 1) && DaysToYear(b) <= days < DaysToYear(b + 1)
    ensures a == b
  {
    if a < b {
      DaysToYearMono(a + 1, b);
    } else if b < a {
      DaysToYearMono(b + 1, a);
    }
  }

  lemma SameMonth(year: nat, d: int, a: nat, b: nat)
    requires 1 <= a <= 12 && DaysToMonth(year, a) <= d < DaysToMonth(year, a + 1)
    requires 1 <= b <= 12 && DaysToMonth(year, b) <= d < DaysToMonth(year, b + 1)
    ensures a == b
  {
    if a < b {
      DaysToMonthMono(year, a + 1, b);
    } else if b < a {
      DaysToMonthMono(year, b + 1, a);
    }
  }

  lemma TimeOfDay(tm: Tm)
    requires ValidDate(tm)
    ensures DayNumber(tm) >= 0
    ensures Instant(tm) / SECS_PER_DAY == DayNumber(tm)
    ensures var secs := Instant(tm) % SECS_PER_DAY;
            secs % 60 == tm.second && secs / 60 % 60 == tm.minute && secs / 3600 == tm.hour
  {
    var secs := 3600 * tm.hour + 60 * tm.minute + tm.second;
    DivMod(Instant(tm), SECS_PER_DAY, DayNumber(tm), secs);
    DivMod(secs, 60, 60 * tm.hour + tm.minute, tm.second);
    DivMod(60 * tm.hour + tm.minute, 60, tm.hour, tm.minute);
    DivMod(secs, 3600, tm.hour, 60 * tm.minute + tm.second);
  }

  lemma YearBounds(tm: Tm)
    requires ValidDate(tm)
    ensures DaysToYear(tm.year) <= DayNumber(tm) < DaysToYear(tm.year + 1)
  {
    MonthsFillYear(tm.year);
    DaysToMonthMono(tm.year, tm.month + 1, 13);
  }

  lemma SameDate(a: Tm, b: Tm)
    requires ValidDate(b) && Instant(b) >= 0 && IsDateOf(a, Instant(b))
    ensures a == b.(wday := Weekday(DayNumber(b)))
  {
    DateUnique(a, b);
    SameDay(a, b);
  }

  /** The fields returned by the loops are those of BreakTime. */
  lemma BreakTimeIs(tm: Tm, t: nat)
    requires t < TWO32 && IsDateOf(tm, t)
    ensures tm == BreakTime(t)
  {
    HasDate(t);
    SameDate(BreakTime(t), tm);
  }

  /** breakTime restores every valid date up to the 32-bit limit, with its weekday. */
  lemma BreakAfterMake(tm: Tm)
    requires ValidDate(tm) && Instant(tm) < TWO32
    ensures Instant(tm) >= 0 && MakeTime(tm) == Instant(tm)
    ensures BreakTime(MakeTime(tm)) == tm.(wday := Weekday(DayNumber(tm)))
  {
    SameDate(BreakTime(Instant(tm)), tm);
  }

  // ---------- the calendar year of an instant ----------

  function YearStart(year: nat): nat {
    SECS_PER_DAY * DaysToYear(year)
  }

  predicate InYear(t: nat, year: nat) {
    YearStart(year) <= t < YearStart(year + 1)
  }

  lemma HasYear(t: nat)
    ensures exists y: nat :: InYear(t, y)
  {
    var y := FindYear(t / SECS_PER_DAY, 0);
    assert InYear(t, y);
  }

  /** Year (counted from 1970) of an instant; by YearOfIff there is only one. */
  ghost function YearOf(t: nat): nat {
    HasYear(t);
    var y: nat :| InYear(t, y);
    y
  }

  /** An instant lies in exactly one year. */
  lemma YearOfIff(t: nat, year: nat)
    ensures YearOf(t) == year <==> YearStart(year) <= t < YearStart(year + 1)
  {
    assert InYear(t, YearOf(t)) by { HasYear(t); }
    if YearStart(year) <= t < YearStart(year + 1) {
      SameYear(t / SECS_PER_DAY, YearOf(t), year);
    }
  }

  /** The year and weekday that breakTime returns. */
  lemma BreakTimeYear(t: nat)
    requires t < TWO32
    ensures BreakTime(t).year == YearOf(t) && BreakTime(t).wday == Weekday(t / SECS_PER_DAY)
  {
    YearAndWeekdayOf(BreakTime(t), t);
  }

  lemma YearAndWeekdayOf(tm: Tm, t: nat)
    requires IsDateOf(tm, t)
    ensures tm.year == YearOf(t) && tm.wday == Weekday(t / SECS_PER_DAY)
  {
    TimeOfDay(tm);
    YearBounds(tm);
    YearOfIff(t, tm.year);
  }
}
