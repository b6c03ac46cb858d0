/** Timezone.cpp: change rules, cached transition points, and conversion between UTC and local
    time. Years are counted from 1970; times are 32-bit seconds. */
module TimeZones {
  import opened Arithmetic
  import opened Calendar

  /** TimeChangeRule: week 0 is "Last", 1..4 the ordinal weeks; the offset is in minutes. */
  datatype RuleFields = RuleFields(week: nat, dow: nat, month: nat, hour: nat, offset: int)

  predicate ValidRule(r: RuleFields) {
    r.week <= 4 && 1 <= r.dow <= 7 && 1 <= r.month <= 12 && r.hour < 24
  }

  type Rule = r: RuleFields | ValidRule(r) witness RuleFields(1, 1, 1, 0, 0)

  /** Seconds by which the rule's clock is ahead of UTC. */
  function Shift(r: Rule): int {
    r.offset * SECS_PER_MIN
  }

  datatype Rules = Rules(dst: Rule, std: Rule)

  /** The four cached transition points. */
  datatype Points = Points(dstUTC: nat, stdUTC: nat, dstLoc: nat, stdLoc: nat)

  // ---------- toTime_t ----------

  /** Days from weekday `from` forward to weekday `dow`. */
  function DaysUntil(dow: nat, from: nat): (k: nat)
    requires 1 <= dow <= 7 && 1 <= from <= 7
    ensures k < 7
  {
    if dow >= from then dow - from else dow - from + 7
  }

  /** Day number of the first day of the month a rule counts from: its own, or the next one for
      "Last". */
  function BaseDay(r: Rule, y: nat): nat
  {
    DaysToYear(y) + DaysToMonth(y, if r.week == 0 then r.month + 1 else r.month)
  }

  /** Day number on which the rule fires. */
  function ChangeDay(r: Rule, y: nat): nat
  {
    BaseDay(r, y) + (if r.week == 0 then -7 else 7 * (r.week - 1)) + DaysUntil(r.dow, Weekday(BaseDay(r, y)))
  }

  /** The instant on the local clock at which the rule fires. */
  function ToTime(r: Rule, y: nat): nat
  {
    SECS_PER_DAY * ChangeDay(r, y) + SECS_PER_HOUR * r.hour
  }

  /** Everything up to the end of 2105 fits in 32 bits. */
  lemma YearsFit(y: nat)
    requires y <= 136
    ensures DaysToYear(y) <= 49674
  {
    var last: nat := 136;
    DaysToYearClosed(last);
    DaysToYearMono(y, last);
  }

  lemma BaseDayBounds(r: Rule, y: nat)
    requires y <= 135
    ensures BaseDay(r, y) <= 49674 && (y > 0 || r.month > 1 || r.week == 0 ==> BaseDay(r, y) >= 31)
  {
    YearsFit(y + 1);
    NextYear(y);
    MonthsFillYear(y);
    var m := if r.week == 0 then r.month + 1 else r.month;
    DaysToMonthMono(y, m, 13);
    if m > 1 {
      DaysToMonthMono(y, 2, m);
    }
  }

  /** makeTime on the first of that month: no truncation happens through 2105. */
  lemma FirstIs(r: Rule, y: nat, tm: Tm)
    requires y <= 135
    requires tm == if r.week == 0 && r.month == 12 then Tm(0, 0, r.hour, 0, 1, 1, y + 1)
                   else Tm(0, 0, r.hour, 0, 1, if r.week == 0 then r.month + 1 else r.month, y)
    ensures MakeTime(tm) == SECS_PER_DAY * BaseDay(r, y) + SECS_PER_HOUR * r.hour
  {
    BaseDayBounds(r, y);
    if r.week == 0 && r.month == 12 {
      NextYear(y);
      MonthsFillYear(y);
    }
  }

  /** The remaining steps of toTime_t, with their truncations. */
  lemma StepsForward(r: Rule, b: nat, wd: nat, t: nat)
    requires b <= 49674 && (r.week == 0 ==> b >= 31) && wd == Weekday(b)
    requires var first := SECS_PER_DAY * b + SECS_PER_HOUR * r.hour;
             t == U32(first + (7 * ((if r.week == 0 then 1 else r.week) - 1) + (r.dow - wd + 7) % 7) * SECS_PER_DAY)
    ensures var day := b + (if r.week == 0 then -7 else 7 * (r.week - 1)) + DaysUntil(r.dow, wd);
            (if r.week == 0 then U32(t - 7 * SECS_PER_DAY) else t) == SECS_PER_DAY * day + SECS_PER_HOUR * r.hour
  {
    DivMod(r.dow - wd + 7, 7, if r.dow >= wd then 1 else 0, DaysUntil(r.dow, wd));
  }

  /** The day of the month on which the rule fires, and its weekday. */
  lemma ChangeDayMeaning(r: Rule, y: nat)
    requires y > 0 || r.month > 1
    ensures var day := ChangeDay(r, y) - DaysToYear(y) - DaysToMonth(y, r.month) + 1;
            && (r.week > 0 ==> 7 * (r.week - 1) < day <= 7 * r.week)
            && (r.week == 0 ==> MonthLength(y, r.month) - 7 < day <= MonthLength(y, r.month))
    ensures Weekday(ChangeDay(r, y)) == r.dow
  {
    DaysToMonthMono(y, 1, r.month);
    if r.month > 1 {
      DaysToMonthMono(y, 2, r.month);
    }
    ChangeDayWeekday(r, y);
  }

  lemma ChangeDayWeekday(r: Rule, y: nat)
    requires (r.week == 0 ==> BaseDay(r, y) >= 7)
    ensures Weekday(ChangeDay(r, y)) == r.dow
  {
    WeekdayAhead(BaseDay(r, y), r.dow, if r.week == 0 then -1 else r.week - 1);
  }

  lemma WeekdayAhead(b: nat, dow: nat, weeks: int)
    requires 1 <= dow <= 7 && b + 7 * weeks >= 0
    ensures Weekday(b + 7 * weeks + DaysUntil(dow, Weekday(b))) == dow
  {
    var q, from := (b + 4) / 7, (b + 4) % 7;
    var k := DaysUntil(dow, from + 1);
    var c := if dow >= from + 1 then 0 else 1;
    assert from + k == dow - 1 + 7 * c;
    DivMod(b + 7 * weeks + k + 4, 7, q + weeks + c, dow - 1);
  }

  lemma ToTimeBounds(r: Rule, y: nat)
    requires y <= 135
    ensures ToTime(r, y) < TWO32
  {
    BaseDayBounds(r, y);
  }

  /** What toTime_t promises: the fields of its result. The weekday, month, hour and year are
      those asked for, and the day lies in the w-th week, or in the final seven days. */
  lemma ToTimeMeaning(r: Rule, y: nat)
    requires y <= 135
    requires y > 0 || r.month > 1
    ensures ToTime(r, y) < TWO32
    ensures var tm := BreakTime(ToTime(r, y));
            && tm.year == y && tm.month == r.month && tm.wday == r.dow
            && tm.hour == r.hour && tm.minute == 0 && tm.second == 0
            && (r.week > 0 ==> 7 * (r.week - 1) < tm.day <= 7 * r.week)
            && (r.week == 0 ==> MonthLength(y, r.month) - 7 < tm.day <= MonthLength(y, r.month))
  {
    ToTimeBounds(r, y);
    ChangeDayMeaning(r, y);
    var day := ChangeDay(r, y) - DaysToYear(y) - DaysToMonth(y, r.month) + 1;
    var tm := Tm(0, 0, r.hour, r.dow, day, r.month, y);
    assert DayNumber(tm) == ChangeDay(r, y);
    assert IsDateOf(tm, ToTime(r, y));
    BreakTimeIs(tm, ToTime(r, y));
  }

  // ---------- transition points ----------

  /** calcTimeChanges for one year: each change is timed on the clock that it ends. */
  predicate ArePoints(z: Rules, y: nat, p: Points) {
    && p.dstLoc == ToTime(z.dst, y) && p.stdLoc == ToTime(z.std, y)
    && p.dstUTC == U32(p.dstLoc - Shift(z.std)) && p.stdUTC == U32(p.stdLoc - Shift(z.dst))
  }

  lemma HasPoints(z: Rules, y: nat)
    ensures exists p :: ArePoints(z, y, p)
  {
    var dl, sl := ToTime(z.dst, y), ToTime(z.std, y);
    assert ArePoints(z, y, Points(U32(dl - Shift(z.std)), U32(sl - Shift(z.dst)), dl, sl));
  }

  /** The transition points of one year; there is only one such set, which HasPoints gives. */
  ghost function PointsOf(z: Rules, y: nat): Points {
    HasPoints(z, y);
    var p :| ArePoints(z, y, p);
    p
  }

  function UtcInDst(p: Points, utc: nat): bool {
    if p.stdUTC > p.dstUTC then p.dstUTC <= utc < p.stdUTC else !(p.stdUTC <= utc < p.dstUTC)
  }

  function LocInDst(p: Points, loc: nat): bool {
    if p.stdLoc > p.dstLoc then p.dstLoc <= loc < p.stdLoc else !(p.stdLoc <= loc < p.dstLoc)
  }

  /** Seconds added to a UTC time by `p`'s points. */
  function Added(z: Rules, p: Points, utc: nat): int {
    Shift(if UtcInDst(p, utc) then z.dst else z.std)
  }

  /** Seconds taken from a local time by `p`'s points. */
  function Taken(z: Rules, p: Points, loc: nat): int {
    Shift(if LocInDst(p, loc) then z.dst else z.std)
  }

  // ---------- conversions by the points of a table of years ----------

  /** Which year a time is in, when each year starts, and the transition points of each year. */
  datatype Almanac = Almanac(yearOf: nat -> nat, start: nat -> nat, points: nat -> Points)

  /** toLocal on the points of the table. */
  ghost function LocalBy(z: Rules, a: Almanac, utc: nat): (r: nat)
    ensures r < TWO32
  {
    U32(utc + Added(z, a.points(a.yearOf(utc)), utc))
  }

  /** toUTC on the points of the table. */
  ghost function UtcBy(z: Rules, a: Almanac, loc: nat): (r: nat)
    ensures r < TWO32
  {
    U32(loc - Taken(z, a.points(a.yearOf(loc)), loc))
  }

  /** The years of the calendar, with freshly computed points. */
  ghost function AlmanacOf(z: Rules): Almanac
  {
    Almanac((t: nat) => YearOf(t), (y: nat) => YearStart(y),
            (y: nat) => PointsOf(z, y))
  }

  /** toLocal and toUTC with no cache at all. */
  ghost function ToLocal(z: Rules, utc: nat): nat
  {
    LocalBy(z, AlmanacOf(z), utc)
  }

  ghost function ToUTC(z: Rules, loc: nat): nat
  {
    UtcBy(z, AlmanacOf(z), loc)
  }

  // ---------- rules that stay clear of the year's end ----------

  /** The rule never fires within two days of New Year. */
  predicate ClearRule(r: Rule) {
    !(r.month == 1 && r.week == 1) && !(r.month == 12 && r.week == 0)
  }

  /** In every year `a` fires at least three days before `b`. */
  ghost predicate Before(a: Rule, b: Rule) {
    forall y :: 1 <= y <= 135 ==> ToTime(a, y) + THREE_DAYS <= ToTime(b, y)
  }

  /** The northern order: daylight time begins and ends in the same year. */
  ghost predicate Northern(z: Rules) {
    Before(z.dst, z.std)
  }

  /** Daylight time is ahead by at most a day. */
  predicate AheadByADay(z: Rules) {
    && -1440 <= z.dst.offset <= 1440 && -1440 <= z.std.offset <= 1440
    && z.std.offset <= z.dst.offset <= z.std.offset + 1440
  }

  /** Both rules are clear of the year's end and three days apart, in the same order every year. */
  ghost predicate Regular(z: Rules) {
    && ClearRule(z.dst) && ClearRule(z.std) && AheadByADay(z)
    && (Before(z.dst, z.std) || Before(z.std, z.dst))
  }

  /** How far the clock moves at a change, in seconds. */
  function Delta(z: Rules): int {
    Shift(z.dst) - Shift(z.std)
  }

  const TWO_DAYS: nat := 172800
  const THREE_DAYS: nat := 259200

  lemma ClearDayInside(r: Rule, y: nat)
    requires ClearRule(r) && (y > 0 || r.month > 1)
    ensures DaysToYear(y) + 2 <= ChangeDay(r, y) && ChangeDay(r, y) + 3 <= DaysToYear(y + 1)
  {
    ChangeDayMeaning(r, y);
    NextYear(y);
    MonthsFillYear(y);
    if r.month > 1 {
      DaysToMonthMono(y, 1, r.month);
    }
    if r.month < 12 {
      DaysToMonthMono(y, r.month + 1, 13);
    }
  }

  lemma ClearRuleInside(r: Rule, y: nat)
    requires ClearRule(r) && y <= 135 && (y > 0 || r.month > 1)
    ensures YearStart(y) + TWO_DAYS <= ToTime(r, y) <= YearStart(y + 1) - TWO_DAYS
    ensures YearStart(y + 1) <= SECS_PER_DAY * 49674
  {
    ClearDayInside(r, y);
    YearsFit(y + 1);
  }

  /** Rules two months apart are in the same order every year. */
  lemma TwoMonthsApart(a: Rule, b: Rule)
    requires a.month + 2 <= b.month
    ensures Before(a, b)
  {
    forall y | 1 <= y <= 135 ensures ToTime(a, y) + THREE_DAYS <= ToTime(b, y) {
      MonthsApart(a, b, y);
      DaysApart(a, b, y);
    }
  }

  /** So are rules of different months when the first fires in one of its first three weeks. */
  lemma EarlyInItsMonth(a: Rule, b: Rule)
    requires a.month < b.month && 1 <= a.week <= 3
    ensures Before(a, b)
  {
    forall y | 1 <= y <= 135 ensures ToTime(a, y) + THREE_DAYS <= ToTime(b, y) {
      MonthsApart(a, b, y);
      DaysApart(a, b, y);
    }
  }

  /** Day of the month on which the rule fires. */
  function MonthDay(r: Rule, y: nat): int {
    ChangeDay(r, y) - DaysToYear(y) - DaysToMonth(y, r.month) + 1
  }

  lemma MonthDayBounds(r: Rule, y: nat)
    requires y > 0
    ensures 1 <= MonthDay(r, y) <= MonthLength(y, r.month)
    ensures r.week > 0 ==> MonthDay(r, y) <= 7 * r.week
  {
    ChangeDayMeaning(r, y);
  }

  lemma MonthsApart(a: Rule, b: Rule, y: nat)
    requires a.month < b.month
    ensures DaysToMonth(y, a.month) + MonthLength(y, a.month) + 28 * (b.month - a.month - 1) <= DaysToMonth(y, b.month)
  {
    DaysToMonthMono(y, a.month + 1, b.month);
  }

  lemma DaysApart(a: Rule, b: Rule, y: nat)
    requires y > 0 && (a.month + 2 <= b.month || 1 <= a.week <= 3)
    requires DaysToMonth(y, a.month) + MonthLength(y, a.month) + 28 * (b.month - a.month - 1) <= DaysToMonth(y, b.month)
    requires a.month < b.month
    ensures ToTime(a, y) + THREE_DAYS <= ToTime(b, y)
  {
    MonthDayBounds(a, y);
    MonthDayBounds(b, y);
    FourDays(a, b, y, ChangeDay(a, y), ChangeDay(b, y));
  }

  lemma FourDays(a: Rule, b: Rule, y: nat, from: nat, to: nat)
    requires from == ChangeDay(a, y) && to == ChangeDay(b, y) && from + 4 <= to
    ensures ToTime(a, y) + THREE_DAYS <= ToTime(b, y)
  {
  }

  /** The facts about the points of a year from `lo` to `hi` that everything below rests on. */
  ghost predicate Settled(z: Rules, p: Points, lo: int, hi: int) {
    && p.dstUTC == p.dstLoc - Shift(z.std) && p.stdUTC == p.stdLoc - Shift(z.dst)
    && lo + TWO_DAYS <= p.dstLoc <= hi - TWO_DAYS
    && lo + TWO_DAYS <= p.stdLoc <= hi - TWO_DAYS
    && (p.dstLoc + THREE_DAYS <= p.stdLoc || p.stdLoc + THREE_DAYS <= p.dstLoc)
    && (p.dstLoc < p.stdLoc <==> Northern(z))
  }

  /** Both changes of the year from `lo` to `hi` are days away from its ends and from each other. */
  predicate Placed(lo: int, hi: int, dst: int, std: int, north: bool) {
    && lo + TWO_DAYS <= dst <= hi - TWO_DAYS && lo + TWO_DAYS <= std <= hi - TWO_DAYS
    && if north then dst + THREE_DAYS <= std else std + THREE_DAYS <= dst
  }

  /** The year 1981 has the days and weekdays of 1970. */
  lemma SameBase(r: Rule, y: nat, x: nat)
    requires y == 0 && x == 11
    ensures BaseDay(r, x) == BaseDay(r, y) + 4018
  {
    DaysToYearClosed(x);
    var m := if r.week == 0 then r.month + 1 else r.month;
    DaysToMonthClosed(x, m);
    DaysToMonthClosed(y, m);
  }

  lemma SameAgain(r: Rule, y: nat, x: nat, bx: nat, b: nat)
    requires bx == BaseDay(r, x) && b == BaseDay(r, y) && bx == b + 7 * 574
    ensures ToTime(r, x) == ToTime(r, y) + SECS_PER_DAY * 4018
  {
    DivMod(bx + 4, 7, (b + 4) / 7 + 574, (b + 4) % 7);
  }

  lemma SameYears(y: nat, x: nat)
    requires y == 0 && x == 11
    ensures YearStart(x) == YearStart(y) + SECS_PER_DAY * 4018
    ensures YearStart(x + 1) == YearStart(y + 1) + SECS_PER_DAY * 4018
  {
    DaysToYearClosed(x);
    DaysToYearClosed(x + 1);
    DaysToYearClosed(y + 1);
  }

  lemma Moved(lo: int, hi: int, dst: int, std: int, north: bool, k: int)
    requires Placed(lo + k, hi + k, dst + k, std + k, north)
    ensures Placed(lo, hi, dst, std, north)
  {
  }

  /** From 1970 on; its order is that of 1981. */
  lemma RulesPlaced(z: Rules, y: nat, dst: nat, std: nat)
    requires Regular(z) && y <= 135 && dst == ToTime(z.dst, y) && std == ToTime(z.std, y)
    ensures Placed(YearStart(y), YearStart(y + 1), dst, std, Northern(z))
  {
    var x: nat := if y == 0 then 11 else y;
    ClearRuleInside(z.dst, x);
    ClearRuleInside(z.std, x);
    RulesInOrder(z, x);
    if y == 0 {
      SameBase(z.dst, y, x);
      SameBase(z.std, y, x);
      SameAgain(z.dst, y, x, BaseDay(z.dst, x), BaseDay(z.dst, y));
      SameAgain(z.std, y, x, BaseDay(z.std, x), BaseDay(z.std, y));
      SameYears(y, x);
      Moved(YearStart(y), YearStart(y + 1), dst, std, Northern(z), SECS_PER_DAY * 4018);
    }
  }

  lemma RulesInOrder(z: Rules, y: nat)
    requires Regular(z) && 1 <= y <= 135
    ensures if Northern(z) then ToTime(z.dst, y) + THREE_DAYS <= ToTime(z.std, y)
            else ToTime(z.std, y) + THREE_DAYS <= ToTime(z.dst, y)
  {
  }

  lemma PointsSettled(z: Rules, y: nat)
    requires Regular(z) && y <= 135
    ensures Settled(z, PointsOf(z, y), YearStart(y), YearStart(y + 1))
  {
    var p := PointsOf(z, y);
    PointsPlaced(z, y, p);
    YearsFit(y + 1);
    PointsInUTC(z, y, p, p.dstLoc - Shift(z.std), p.stdLoc - Shift(z.dst));
  }

  lemma PointsPlaced(z: Rules, y: nat, p: Points)
    requires Regular(z) && y <= 135 && p == PointsOf(z, y)
    ensures Placed(YearStart(y), YearStart(y + 1), p.dstLoc, p.stdLoc, Northern(z))
  {
    HasPoints(z, y);
    RulesPlaced(z, y, p.dstLoc, p.stdLoc);
  }

  lemma PointsInUTC(z: Rules, y: nat, p: Points, dst: int, std: int)
    requires p == PointsOf(z, y) && dst == p.dstLoc - Shift(z.std) && std == p.stdLoc - Shift(z.dst)
    requires 0 <= dst < TWO32 && 0 <= std < TWO32
    ensures p.dstUTC == dst && p.stdUTC == std
  {
    HasPoints(z, y);
    InRangeStays(dst);
    InRangeStays(std);
  }

  // ---------- conversions across one year, on settled points ----------

  /** Within one year's points, the way back undoes the way there except in the fold. */
  lemma SameYearThere(z: Rules, p: Points, lo: int, hi: int, u: nat)
    requires AheadByADay(z) && Settled(z, p, lo, hi) && u + Added(z, p, u) >= 0
    ensures Taken(z, p, u + Added(z, p, u)) == if Folded(z, p, u) then Shift(z.dst) else Added(z, p, u)
    ensures Folded(z, p, u) ==> Added(z, p, u) == Shift(z.std)
  {
  }

  /** Within one year's points, the way there undoes the way back except in the gap. */
  lemma SameYearBack(z: Rules, p: Points, lo: int, hi: int, l: nat)
    requires AheadByADay(z) && Settled(z, p, lo, hi) && l - Taken(z, p, l) >= 0
    ensures Added(z, p, l - Taken(z, p, l)) == if Skipped(z, p, l) then Shift(z.std) else Taken(z, p, l)
    ensures Skipped(z, p, l) ==> Taken(z, p, l) == Shift(z.dst)
  {
  }

  /** Around New Year only the hemisphere matters, whichever year's points are asked. */
  lemma NewYear(z: Rules, p: Points, lo: int, hi: int, t: nat)
    requires AheadByADay(z) && Settled(z, p, lo, hi)
    requires lo - 86400 <= t < lo + 86400 || hi - 86400 <= t < hi + 86400
    ensures UtcInDst(p, t) == LocInDst(p, t) == !Northern(z)
    ensures !Folded(z, p, t) && !Skipped(z, p, t)
  {
  }

  /** Instants whose local reading occurs a second time: just after falling back. */
  predicate Folded(z: Rules, p: Points, utc: int) {
    p.stdUTC <= utc < p.stdUTC + Delta(z)
  }

  /** Local readings that never occur: skipped when springing forward. */
  predicate Skipped(z: Rules, p: Points, loc: int) {
    p.dstLoc <= loc < p.dstLoc + Delta(z)
  }

  // ---------- the round trips ----------

  /** `t` lies in the year from `lo` to `hi`, whose points `p` are. */
  ghost predicate YearAt(z: Rules, p: Points, lo: int, hi: int, t: int) {
    Settled(z, p, lo, hi) && lo <= t < hi
  }

  /** Two times fall in the same year, or in two years meeting between them. */
  ghost predicate Meet(p: Points, lo: int, hi: int, q: Points, lo': int, hi': int) {
    (p == q && lo == lo' && hi == hi') || hi == lo' || hi' == lo
  }

  /** Whatever the years of the two ends, the points of the one agree with those of the other. */
  lemma ThereAndBack(z: Rules, p: Points, lo: int, hi: int, q: Points, lo': int, hi': int, u: nat, l: nat)
    requires AheadByADay(z) && YearAt(z, p, lo, hi, u) && YearAt(z, q, lo', hi', l) && Meet(p, lo, hi, q, lo', hi')
    requires l == u + Added(z, p, u)
    ensures l - Taken(z, q, l) == if Folded(z, p, u) then u - Delta(z) else u
  {
    if p == q && lo == lo' && hi == hi' {
      SameYearThere(z, p, lo, hi, u);
    } else {
      NewYear(z, p, lo, hi, u);
      NewYear(z, q, lo', hi', l);
    }
  }

  lemma BackAndThere(z: Rules, p: Points, lo: int, hi: int, q: Points, lo': int, hi': int, l: nat, u: nat)
    requires AheadByADay(z) && YearAt(z, p, lo, hi, l) && YearAt(z, q, lo', hi', u) && Meet(p, lo, hi, q, lo', hi')
    requires u == l - Taken(z, p, l)
    ensures u + Added(z, q, u) == if Skipped(z, p, l) then l - Delta(z) else l
  {
    if p == q && lo == lo' && hi == hi' {
      SameYearBack(z, p, lo, hi, l);
    } else {
      NewYear(z, p, lo, hi, l);
      NewYear(z, q, lo', hi', u);
    }
  }

  ghost predicate YearsApart(a: Almanac) {
    && a.start(136) < TWO32
    && forall x: nat, y: nat :: x < y ==> a.start(x) + 86400 * 365 <= a.start(y)
  }

  ghost predicate YearsFound(a: Almanac) {
    forall t: nat {:trigger a.yearOf(t)} :: a.start(a.yearOf(t)) <= t < a.start(a.yearOf(t) + 1)
  }

  ghost predicate AllSettled(z: Rules, a: Almanac) {
    forall y {:trigger a.points(y)} :: 1 <= y <= 135 ==> Settled(z, a.points(y), a.start(y), a.start(y + 1))
  }

  ghost predicate Good(z: Rules, a: Almanac) {
    AheadByADay(z) && YearsApart(a) && YearsFound(a) && AllSettled(z, a)
  }

  /** A day more than the first year of the table, a year less than the last. */
  ghost predicate Inside(a: Almanac, t: int) {
    a.start(1) + 86400 <= t < a.start(135)
  }

  /** The years of two nearby times are the same or meet between them. */
  lemma Neighbours(z: Rules, a: Almanac, t: nat, s: nat)
    requires Good(z, a) && Inside(a, t) && t - 86400 <= s <= t + 86400
    ensures var y, x := a.yearOf(t), a.yearOf(s);
            && YearAt(z, a.points(y), a.start(y), a.start(y + 1), t)
            && YearAt(z, a.points(x), a.start(x), a.start(x + 1), s)
            && Meet(a.points(y), a.start(y), a.start(y + 1), a.points(x), a.start(x), a.start(x + 1))
  {
    NearbyYears(a, t, s);
    assert AllSettled(z, a);
  }

  lemma NearbyYears(a: Almanac, t: nat, s: nat)
    requires YearsApart(a) && YearsFound(a) && Inside(a, t) && t - 86400 <= s <= t + 86400
    ensures 1 <= a.yearOf(t) <= 135 && a.start(a.yearOf(t)) <= t < a.start(a.yearOf(t) + 1)
    ensures 1 <= a.yearOf(s) <= 135 && a.start(a.yearOf(s)) <= s < a.start(a.yearOf(s) + 1)
    ensures var y, x := a.yearOf(t), a.yearOf(s); x == y || x == y + 1 || y == x + 1
  {
    var y, x := a.yearOf(t), a.yearOf(s);
    assert a.start(135) + 86400 * 365 <= a.start(136);
    NotLater(a, 1, y);
    NotLater(a, 1, x);
    NotLater(a, y, 135);
    NotLater(a, x, 135);
    NotLater(a, x, y + 1);
    NotLater(a, y, x + 1);
  }

  /** A year that starts before another one ends is not after it. */
  lemma NotLater(a: Almanac, x: nat, y: nat)
    requires YearsApart(a)
    ensures a.start(x) < a.start(y + 1) ==> x <= y
    ensures a.start(x) < a.start(y) + 86400 * 365 ==> x <= y
  {
  }

  /** No shift exceeds a day. */
  lemma ShiftBounds(z: Rules, p: Points, t: nat)
    requires AheadByADay(z)
    ensures -86400 <= Added(z, p, t) <= 86400 && -86400 <= Taken(z, p, t) <= 86400
    ensures 0 <= Delta(z) <= 86400
  {
  }

  lemma RoundTripBy(z: Rules, a: Almanac, u: nat, l: nat)
    requires Good(z, a) && Inside(a, u) && l == u + Added(z, a.points(a.yearOf(u)), u)
    ensures l - Taken(z, a.points(a.yearOf(l)), l) == if Folded(z, a.points(a.yearOf(u)), u) then u - Delta(z) else u
  {
    var y, x := a.yearOf(u), a.yearOf(l);
    ShiftBounds(z, a.points(y), u);
    Neighbours(z, a, u, l);
    ThereAndBack(z, a.points(y), a.start(y), a.start(y + 1), a.points(x), a.start(x), a.start(x + 1), u, l);
  }

  lemma RoundTripLocalBy(z: Rules, a: Almanac, l: nat, u: nat)
    requires Good(z, a) && Inside(a, l) && u == l - Taken(z, a.points(a.yearOf(l)), l)
    ensures u + Added(z, a.points(a.yearOf(u)), u) == if Skipped(z, a.points(a.yearOf(l)), l) then l - Delta(z) else l
  {
    var y, x := a.yearOf(l), a.yearOf(u);
    ShiftBounds(z, a.points(y), l);
    Neighbours(z, a, l, u);
    BackAndThere(z, a.points(y), a.start(y), a.start(y + 1), a.points(x), a.start(x), a.start(x + 1), l, u);
  }

  /** No instant has a local reading inside the gap. */
  lemma NotSkipped(z: Rules, p: Points, lo: int, hi: int, q: Points, lo': int, hi': int, u: nat, l: nat)
    requires AheadByADay(z) && YearAt(z, p, lo, hi, u) && YearAt(z, q, lo', hi', l) && Meet(p, lo, hi, q, lo', hi')
    requires l == u + Added(z, p, u)
    ensures !Skipped(z, q, l)
  {
    if p == q && lo == lo' && hi == hi' {
    } else {
      NewYear(z, q, lo', hi', l);
    }
  }

  lemma NoneInGapBy(z: Rules, a: Almanac, u: nat, l: nat)
    requires Good(z, a) && Inside(a, u) && l == u + Added(z, a.points(a.yearOf(u)), u)
    ensures !Skipped(z, a.points(a.yearOf(l)), l)
  {
    var y, x := a.yearOf(u), a.yearOf(l);
    ShiftBounds(z, a.points(y), u);
    Neighbours(z, a, u, l);
    NotSkipped(z, a.points(y), a.start(y), a.start(y + 1), a.points(x), a.start(x), a.start(x + 1), u, l);
  }

  lemma StaysIn32Bits(a: Almanac, t: nat, s: int)
    requires YearsApart(a) && Inside(a, t) && t - 86400 <= s <= t + 86400
    ensures 0 <= s < TWO32 && U32(s) == s
  {
    assert a.start(135) + 86400 * 365 <= a.start(136);
  }

  lemma LocalByIs(z: Rules, a: Almanac, t: nat)
    requires Good(z, a) && Inside(a, t)
    ensures LocalBy(z, a, t) == t + Added(z, a.points(a.yearOf(t)), t)
  {
    ShiftBounds(z, a.points(a.yearOf(t)), t);
    StaysIn32Bits(a, t, t + Added(z, a.points(a.yearOf(t)), t));
  }

  lemma UtcByIs(z: Rules, a: Almanac, t: nat)
    requires Good(z, a) && Inside(a, t)
    ensures UtcBy(z, a, t) == t - Taken(z, a.points(a.yearOf(t)), t)
  {
    ShiftBounds(z, a.points(a.yearOf(t)), t);
    StaysIn32Bits(a, t, t - Taken(z, a.points(a.yearOf(t)), t));
  }

  /** The round trips on any good table, 32-bit arithmetic included. */
  lemma RoundTripWrapped(z: Rules, a: Almanac, u: nat)
    requires Good(z, a) && Inside(a, u)
    ensures UtcBy(z, a, LocalBy(z, a, u)) == if Folded(z, a.points(a.yearOf(u)), u) then u - Delta(z) else u
  {
    LocalByIs(z, a, u);
    RoundTripBy(z, a, u, LocalBy(z, a, u));
    ShiftBounds(z, a.points(a.yearOf(u)), u);
    StaysIn32Bits(a, u, if Folded(z, a.points(a.yearOf(u)), u) then u - Delta(z) else u);
  }

  lemma RoundTripLocalWrapped(z: Rules, a: Almanac, l: nat)
    requires Good(z, a) && Inside(a, l)
    ensures LocalBy(z, a, UtcBy(z, a, l)) == if Skipped(z, a.points(a.yearOf(l)), l) then l - Delta(z) else l
  {
    UtcByIs(z, a, l);
    RoundTripLocalBy(z, a, l, UtcBy(z, a, l));
    ShiftBounds(z, a.points(a.yearOf(l)), l);
    StaysIn32Bits(a, l, if Skipped(z, a.points(a.yearOf(l)), l) then l - Delta(z) else l);
  }

  lemma NoneInGapWrapped(z: Rules, a: Almanac, u: nat)
    requires Good(z, a) && Inside(a, u)
    ensures var l := LocalBy(z, a, u); !Skipped(z, a.points(a.yearOf(l)), l)
  {
    LocalByIs(z, a, u);
    NoneInGapBy(z, a, u, LocalBy(z, a, u));
  }

  // ---------- the almanac of a time zone ----------

  lemma AlmanacYearsApart(z: Rules)
    ensures YearsApart(AlmanacOf(z))
  {
    YearsFit(136);
    var a := AlmanacOf(z);
    forall x: nat, y: nat | x < y ensures a.start(x) + 86400 * 365 <= a.start(y) {
      DaysToYearMono(x, y);
    }
  }

  lemma AlmanacYearsFound(z: Rules)
    ensures YearsFound(AlmanacOf(z))
  {
    var a := AlmanacOf(z);
    forall t: nat ensures a.start(a.yearOf(t)) <= t < a.start(a.yearOf(t) + 1) {
      YearOfIff(t, YearOf(t));
    }
  }

  lemma AlmanacSettled(z: Rules)
    requires Regular(z)
    ensures AllSettled(z, AlmanacOf(z))
  {
    var a := AlmanacOf(z);
    forall y | 1 <= y <= 135 ensures Settled(z, a.points(y), a.start(y), a.start(y + 1)) {
      SettledAt(z, y);
    }
  }

  lemma SettledAt(z: Rules, y: nat)
    requires Regular(z) && 1 <= y <= 135
    ensures var a := AlmanacOf(z); Settled(z, a.points(y), a.start(y), a.start(y + 1))
  {
    var a := AlmanacOf(z);
    PointsSettled(z, y);
    AlmanacAt(z, y);
    AlmanacAt(z, y + 1);
    SettledSame(z, PointsOf(z, y), YearStart(y), YearStart(y + 1), a.points(y), a.start(y), a.start(y + 1));
  }

  lemma SettledSame(z: Rules, p: Points, lo: int, hi: int, q: Points, lo': int, hi': int)
    requires Settled(z, p, lo, hi) && p == q && lo == lo' && hi == hi'
    ensures Settled(z, q, lo', hi')
  {
  }

  lemma AlmanacAt(z: Rules, y: nat)
    ensures AlmanacOf(z).points(y) == PointsOf(z, y) && AlmanacOf(z).start(y) == YearStart(y)
  {
  }

  lemma AlmanacGood(z: Rules)
    requires Regular(z)
    ensures Good(z, AlmanacOf(z))
  {
    AlmanacYearsApart(z);
    AlmanacYearsFound(z);
    AlmanacSettled(z);
  }

  /** From 2 January 1971 to the end of 2104: nothing wraps, before or after a conversion. */
  ghost predicate InRange(t: nat) {
    YearStart(1) + 86400 <= t < YearStart(135)
  }

  /** Instants read a second time on the local clock. */
  ghost predicate InFold(z: Rules, utc: nat)
  {
    var a := AlmanacOf(z);
    Folded(z, a.points(a.yearOf(utc)), utc)
  }

  /** Local readings that are skipped. */
  ghost predicate InGap(z: Rules, loc: nat)
  {
    var a := AlmanacOf(z);
    Skipped(z, a.points(a.yearOf(loc)), loc)
  }

  /** toUTC undoes toLocal, at every instant outside the fold and also across New Year; inside
      the fold it gives the earlier of the two instants. */
  lemma RoundTrip(z: Rules, u: nat)
    requires Regular(z) && InRange(u)
    ensures ToUTC(z, ToLocal(z, u)) == if InFold(z, u) then u - Delta(z) else u
  {
    AlmanacGood(z);
    RoundTripWrapped(z, AlmanacOf(z), u);
  }

  /** toLocal undoes toUTC on every local reading that occurs; a skipped one comes back earlier
      by the size of the jump. */
  lemma RoundTripLocal(z: Rules, l: nat)
    requires Regular(z) && InRange(l)
    ensures ToLocal(z, ToUTC(z, l)) == if InGap(z, l) then l - Delta(z) else l
  {
    AlmanacGood(z);
    RoundTripLocalWrapped(z, AlmanacOf(z), l);
  }

  /** toLocal never yields a reading inside the gap. */
  lemma NeverInGap(z: Rules, u: nat)
    requires Regular(z) && InRange(u)
    ensures !InGap(z, ToLocal(z, u))
  {
    AlmanacGood(z);
    NoneInGapWrapped(z, AlmanacOf(z), u);
  }

  /** Two instants share a local reading only across the fold. */
  lemma CollideOnlyInFold(z: Rules, u: nat, v: nat)
    requires Regular(z) && InRange(u) && InRange(v) && u < v
    ensures ToLocal(z, u) == ToLocal(z, v) ==> InFold(z, v) && u == v - Delta(z)
  {
    RoundTrip(z, u);
    RoundTrip(z, v);
  }

  // ---------- what the conversions mean ----------

  /** The second at which a clock that is `ahead` minutes ahead shows the rule's local date. */
  function FiresAt(r: Rule, y: nat, ahead: int): int {
    86400 * ChangeDay(r, y) + 3600 * r.hour - 60 * ahead
  }

  /** When each year starts, and when daylight time begins and ends in it. */
  datatype Changes = Changes(start: nat -> int, begin: nat -> int, end: nat -> int)

  /** The changes as shown by a clock behind the ones that they are timed on. */
  ghost function ChangesOf(z: Rules, beginAhead: int, endAhead: int): Changes {
    Changes((y: nat) => YearStart(y), (y: nat) => FiresAt(z.dst, y, beginAhead),
            (y: nat) => FiresAt(z.std, y, endAhead))
  }

  /** Daylight time had begun in year `y` by `t`, and every end up to `t` came before that. */
  ghost predicate BeganLast(c: Changes, y: nat, t: int) {
    c.begin(y) <= t && forall x: nat :: x <= 135 && c.end(x) <= t ==> c.end(x) < c.begin(y)
  }

  /** Of all the changes up to `t`, from 1970 on, the last one began daylight time. */
  ghost predicate InDaylight(c: Changes, t: int) {
    exists y: nat :: y <= 135 && BeganLast(c, y, t)
  }

  /** UTC to local adds the minutes of the rule whose change came last; daylight time begins on the
      standard clock and ends on the daylight clock. */
  lemma ToLocalMeaning(z: Rules, t: nat)
    requires Regular(z) && InRange(t)
    ensures ToLocal(z, t) ==
            t + 60 * if InDaylight(ChangesOf(z, z.std.offset, z.dst.offset), t) then z.dst.offset else z.std.offset
  {
    AlmanacGood(z);
    LocalByIs(z, AlmanacOf(z), t);
    YearInRange(t, YearOf(t));
    DaylightPoints(z, t, YearOf(t), PointsOf(z, YearOf(t)));
  }

  /** Local to UTC takes the minutes of the rule whose local date came last. */
  lemma ToUTCMeaning(z: Rules, t: nat)
    requires Regular(z) && InRange(t)
    ensures ToUTC(z, t) == t - 60 * if InDaylight(ChangesOf(z, 0, 0), t) then z.dst.offset else z.std.offset
  {
    AlmanacGood(z);
    UtcByIs(z, AlmanacOf(z), t);
    YearInRange(t, YearOf(t));
    DaylightPoints(z, t, YearOf(t), PointsOf(z, YearOf(t)));
  }

  lemma DaylightPoints(z: Rules, t: nat, y: nat, p: Points)
    requires Regular(z) && 1 <= y <= 134 && YearStart(y) <= t < YearStart(y + 1) && p == PointsOf(z, y)
    ensures InDaylight(ChangesOf(z, z.std.offset, z.dst.offset), t) == UtcInDst(p, t)
    ensures InDaylight(ChangesOf(z, 0, 0), t) == LocInDst(p, t)
  {
    PointsFire(z, y, p);
    DaylightIs(z, z.std.offset, z.dst.offset, t, y, p.dstUTC, p.stdUTC);
    DaylightIs(z, 0, 0, t, y, p.dstLoc, p.stdLoc);
  }

  lemma DaylightIs(z: Rules, beginAhead: int, endAhead: int, t: nat, y: nat, begin: int, end: int)
    requires Regular(z) && 1 <= y <= 134 && YearStart(y) <= t < YearStart(y + 1)
    requires -1440 <= beginAhead <= endAhead <= 1440 && endAhead <= beginAhead + 1440
    requires begin == FiresAt(z.dst, y, beginAhead) && end == FiresAt(z.std, y, endAhead)
    ensures InDaylight(ChangesOf(z, beginAhead, endAhead), t)
       <==> if begin < end then begin <= t < end else !(end <= t < begin)
  {
    ChangesOrderly(z, beginAhead, endAhead);
    LastChange(ChangesOf(z, beginAhead, endAhead), Northern(z), t, y);
  }

  /** The four points of a year are the rules' local dates, on the local clock and in UTC. */
  lemma PointsFire(z: Rules, y: nat, p: Points)
    requires Regular(z) && y <= 135 && p == PointsOf(z, y)
    ensures p.dstUTC == FiresAt(z.dst, y, z.std.offset) && p.stdUTC == FiresAt(z.std, y, z.dst.offset)
    ensures p.dstLoc == FiresAt(z.dst, y, 0) && p.stdLoc == FiresAt(z.std, y, 0)
  {
    HasPoints(z, y);
    PointsSettled(z, y);
  }

  lemma YearInRange(t: nat, y: nat)
    requires InRange(t) && y == YearOf(t)
    ensures 1 <= y <= 134 && YearStart(y) <= t < YearStart(y + 1)
  {
    YearOfIff(t, y);
    if y > 134 {
      DaysToYearMono(135, y);
    }
  }

  /** Both changes lie inside their year, in this order. */
  ghost predicate YearOrderly(c: Changes, y: nat, north: bool) {
    && c.start(y) < c.begin(y) < c.start(y + 1) && c.start(y) < c.end(y) < c.start(y + 1)
    && if north then c.begin(y) < c.end(y) else c.end(y) < c.begin(y)
  }

  /** All years are like that, in the same order. */
  ghost predicate Orderly(c: Changes, north: bool) {
    && (forall x: nat, y: nat :: x <= y ==> c.start(x) <= c.start(y))
    && forall y: nat :: y <= 135 ==> YearOrderly(c, y, north)
  }

  lemma ChangesOrderly(z: Rules, beginAhead: int, endAhead: int)
    requires Regular(z) && -1440 <= beginAhead <= endAhead <= 1440 && endAhead <= beginAhead + 1440
    ensures Orderly(ChangesOf(z, beginAhead, endAhead), Northern(z))
  {
    StartsInOrder(z, beginAhead, endAhead);
    var c := ChangesOf(z, beginAhead, endAhead);
    forall y: nat | y <= 135 ensures YearOrderly(c, y, Northern(z)) {
      RulesPlaced(z, y, ToTime(z.dst, y), ToTime(z.std, y));
      ChangesInYear(z, beginAhead, endAhead, y, ToTime(z.dst, y), ToTime(z.std, y), Northern(z));
    }
  }

  lemma StartsInOrder(z: Rules, beginAhead: int, endAhead: int)
    ensures var c := ChangesOf(z, beginAhead, endAhead); forall x: nat, y: nat :: x <= y ==> c.start(x) <= c.start(y)
  {
    var c := ChangesOf(z, beginAhead, endAhead);
    forall x: nat, y: nat | x <= y ensures c.start(x) <= c.start(y) {
      DaysToYearMono(x, y);
    }
  }

  lemma ChangesInYear(z: Rules, beginAhead: int, endAhead: int, y: nat, dst: int, std: int, north: bool)
    requires dst == ToTime(z.dst, y) && std == ToTime(z.std, y)
    requires Placed(YearStart(y), YearStart(y + 1), dst, std, north)
    requires -1440 <= beginAhead <= endAhead <= 1440 && endAhead <= beginAhead + 1440
    ensures YearOrderly(ChangesOf(z, beginAhead, endAhead), y, north)
  {
    AheadInside(YearStart(y), YearStart(y + 1), dst, std, north, beginAhead, endAhead);
    ChangesAt(z, beginAhead, endAhead, y, dst, std);
  }

  lemma ChangesAt(z: Rules, beginAhead: int, endAhead: int, y: nat, dst: int, std: int)
    requires dst == ToTime(z.dst, y) && std == ToTime(z.std, y)
    ensures var c := ChangesOf(z, beginAhead, endAhead);
            && c.start(y) == YearStart(y) && c.start(y + 1) == YearStart(y + 1)
            && c.begin(y) == dst - 60 * beginAhead && c.end(y) == std - 60 * endAhead
  {
  }

  lemma AheadInside(lo: int, hi: int, dst: int, std: int, north: bool, beginAhead: int, endAhead: int)
    requires Placed(lo, hi, dst, std, north)
    requires -1440 <= beginAhead <= endAhead <= 1440 && endAhead <= beginAhead + 1440
    ensures lo < dst - 60 * beginAhead < hi && lo < std - 60 * endAhead < hi
    ensures if north then dst - 60 * beginAhead < std - 60 * endAhead else std - 60 * endAhead < dst - 60 * beginAhead
  {
  }

  /** Changes of earlier years are before this one, of later years after it. */
  lemma OtherYears(c: Changes, north: bool, x: nat, y: nat)
    requires Orderly(c, north) && x <= 135
    ensures x < y ==> c.begin(x) < c.start(y) && c.end(x) < c.start(y)
    ensures y < x ==> c.start(y + 1) < c.begin(x) && c.start(y + 1) < c.end(x)
  {
    assert YearOrderly(c, x, north);
    if x < y {
      assert c.start(x + 1) <= c.start(y);
    } else if y < x {
      assert c.start(y + 1) <= c.start(x);
    }
  }

  /** Within a year its own two changes decide, and before both the last one of the year before. */
  lemma LastChange(c: Changes, north: bool, t: nat, y: nat)
    requires Orderly(c, north) && 1 <= y <= 134 && c.start(y) <= t < c.start(y + 1)
    ensures InDaylight(c, t)
       <==> if c.begin(y) < c.end(y) then c.begin(y) <= t < c.end(y) else !(c.end(y) <= t < c.begin(y))
  {
    OtherYears(c, north, y - 1, y);
    assert YearOrderly(c, y, north) && YearOrderly(c, y - 1, north);
    if (if c.begin(y) < c.end(y) then c.begin(y) <= t < c.end(y) else !(c.end(y) <= t < c.begin(y))) {
      var w := if c.begin(y) <= t then y else y - 1;
      forall x: nat | x <= 135 && c.end(x) <= t ensures c.end(x) < c.begin(w) {
        OtherYears(c, north, x, y);
        OtherYears(c, north, x, w);
      }
      assert BeganLast(c, w, t);
    } else {
      var w := if c.end(y) <= t then y else y - 1;
      forall v: nat | v <= 135 ensures !BeganLast(c, v, t) {
        OtherYears(c, north, v, y);
        OtherYears(c, north, v, w);
        assert c.end(w) <= t;
      }
    }
  }

  // ---------- the cached conversions ----------

  /** Second Sunday of March and first Sunday of November at 2:00, as the weather station sets up. */
  const STATION_RULES := Rules(RuleFields(2, 1, 3, 2, -360), RuleFields(1, 1, 11, 2, -420))

  lemma StationIsRegular()
    ensures Regular(STATION_RULES) && Northern(STATION_RULES)
  {
    TwoMonthsApart(STATION_RULES.dst, STATION_RULES.std);
  }

  type RegularRules = z: Rules | Regular(z) witness (StationIsRegular(); STATION_RULES)

  /** Points that are those of their own year, by which the year test of the cache works. */
  ghost predicate FreshPoints(z: Rules, p: Points)
  {
    && p.dstUTC < TWO32 && p.dstLoc < TWO32
    && 1 <= YearOf(p.dstUTC) == YearOf(p.dstLoc) <= 135
    && p == PointsOf(z, YearOf(p.dstUTC))
  }

  lemma PointsAreFresh(z: Rules, y: nat, p: Points)
    requires Regular(z) && 0 < y <= 135 && p == PointsOf(z, y)
    ensures FreshPoints(z, p) && YearOf(p.dstUTC) == y
  {
    PointsSettled(z, y);
    HasPoints(z, y);
    ToTimeBounds(z.dst, y);
    YearOfIff(p.dstUTC, y);
    YearOfIff(p.dstLoc, y);
  }

  lemma ToLocalIs(z: Rules, t: nat, dst: bool, shift: int)
    requires YearOf(t) <= 135 && dst == UtcInDst(PointsOf(z, YearOf(t)), t)
    requires shift == Shift(if dst then z.dst else z.std)
    ensures ToLocal(z, t) == U32(t + shift)
  {
  }

  lemma ToUTCIs(z: Rules, t: nat, dst: bool, shift: int)
    requires YearOf(t) <= 135 && dst == LocInDst(PointsOf(z, YearOf(t)), t)
    requires shift == Shift(if dst then z.dst else z.std)
    ensures ToUTC(z, t) == U32(t - shift)
  {
  }

  lemma PointsOfIs(z: Rules, y: nat, p: Points)
    requires ArePoints(z, y, p)
    ensures p == PointsOf(z, y)
  {
  }

  lemma NewPointsAreFresh(z: Rules, y: nat, dl: nat, sl: nat)
    requires Regular(z) && 0 < y <= 135 && dl == ToTime(z.dst, y) && sl == ToTime(z.std, y)
    ensures var p := Points(U32(dl - Shift(z.std)), U32(sl - Shift(z.dst)), dl, sl);
            FreshPoints(z, p) && YearOf(p.dstUTC) == y
  {
    var p := Points(U32(dl - Shift(z.std)), U32(sl - Shift(z.dst)), dl, sl);
    PointsOfIs(z, y, p);
    PointsAreFresh(z, y, p);
  }

  class Timezone {
    const rules: RegularRules
    var dstUTC: nat
    var stdUTC: nat
    var dstLoc: nat
    var stdLoc: nat

    /** The source sets the rules only; the transition points hold whatever memory held. */
    constructor (rules: RegularRules, unset: Points)
      ensures this.rules == rules && Cached() == unset
    {
      this.rules := rules;
      dstUTC, stdUTC, dstLoc, stdLoc := unset.dstUTC, unset.stdUTC, unset.dstLoc, unset.stdLoc;
    }

    function Cached(): Points
      reads this
    {
      Points(dstUTC, stdUTC, dstLoc, stdLoc)
    }

    ghost predicate Fresh()
      reads this
    {
      FreshPoints(rules, Cached())
    }

    /** What a conversion in year `y` needs of the cache: fresh, or unset but of other years. */
    ghost predicate Usable(y: nat)
      reads this
    {
      dstUTC < TWO32 && dstLoc < TWO32 &&
      (Fresh() || (YearOf(dstUTC) != y && YearOf(dstLoc) != y))
    }

    /** toTime_t: step to the month the rule counts from, then to its weekday and week. */
    method ToTimeT(r: Rule, y: nat) returns (t: nat)
      requires 1 <= y <= 135
      ensures t == ToTime(r, y)
    {
      var first := FirstOfMonth(r, y);
      BaseDayBounds(r, y);
      t := StepToWeekday(r, first, BaseDay(r, y));
    }

    method FirstOfMonth(r: Rule, y: nat) returns (t: nat)
      requires 1 <= y <= 135
      ensures t == SECS_PER_DAY * BaseDay(r, y) + SECS_PER_HOUR * r.hour
    {
      var m, year := r.month, y;
      if r.week == 0 {
        m := m + 1;
        if m > 12 {
          m := 1;
          year := year + 1;
        }
      }
      var tm := Tm(0, 0, r.hour, 0, 1, m, year);
      t := MakeTimeLoop(tm);
      FirstIs(r, y, tm);
    }

    method StepToWeekday(r: Rule, first: nat, ghost b: nat) returns (t: nat)
      requires first == SECS_PER_DAY * b + SECS_PER_HOUR * r.hour
      requires b <= 49674 && (r.week == 0 ==> b >= 31) && first < TWO32
      ensures var day := b + (if r.week == 0 then -7 else 7 * (r.week - 1)) + DaysUntil(r.dow, Weekday(b));
              t == SECS_PER_DAY * day + SECS_PER_HOUR * r.hour
    {
      DivMod(first, SECS_PER_DAY, b, SECS_PER_HOUR * r.hour);
      var w := if r.week == 0 then 1 else r.week;
      var wd := WeekdayOf(first);
      t := U32(first + (7 * (w - 1) + (r.dow - wd + 7) % 7) * SECS_PER_DAY);
      StepsForward(r, b, wd, t);
      if r.week == 0 {
        t := U32(t - 7 * SECS_PER_DAY);
      }
    }

    /** weekday(t): the weekday among the fields of breakTime. */
    method WeekdayOf(t: nat) returns (wd: nat)
      requires t < TWO32
      ensures wd == Weekday(t / SECS_PER_DAY)
    {
      var tm := BreakTimeLoop(t);
      YearAndWeekdayOf(tm, t);
      wd := tm.wday;
    }

    method CalcTimeChanges(y: nat)
      requires 1 <= y <= 135
      modifies this
      ensures Fresh() && YearOf(dstUTC) == y
      ensures dstLoc == FiresAt(rules.dst, y, 0) && stdLoc == FiresAt(rules.std, y, 0)
      ensures dstUTC == FiresAt(rules.dst, y, rules.std.offset) && stdUTC == FiresAt(rules.std, y, rules.dst.offset)
    {
      var p := NewPoints(y);
      PointsFire(rules, y, p);
      dstLoc, stdLoc, dstUTC, stdUTC := p.dstLoc, p.stdLoc, p.dstUTC, p.stdUTC;
      assert Cached() == p;
    }

    /** The four values it computes. */
    method NewPoints(y: nat) returns (p: Points)
      requires 1 <= y <= 135
      ensures FreshPoints(rules, p) && YearOf(p.dstUTC) == y
    {
      var dl := ToTimeT(rules.dst, y);
      var sl := ToTimeT(rules.std, y);
      p := Points(U32(dl - Shift(rules.std)), U32(sl - Shift(rules.dst)), dl, sl);
      NewPointsAreFresh(rules, y, dl, sl);
    }

    /** The test at the head of every conversion. */
    method Refresh(t: nat, change: nat)
      requires t < TWO32 && change < TWO32 && 1 <= YearOf(t) <= 135
      requires Usable(YearOf(t)) && (change == dstUTC || change == dstLoc)
      modifies this
      ensures Fresh() && YearOf(dstUTC) == YearOf(t)
    {
      var now := BreakTimeLoop(t);
      var then' := BreakTimeLoop(change);
      YearAndWeekdayOf(now, t);
      YearAndWeekdayOf(then', change);
      if now.year != then'.year {
        CalcTimeChanges(now.year);
      }
    }

    method UtcIsDST(utc: nat) returns (b: bool)
      requires utc < TWO32 && 1 <= YearOf(utc) <= 135 && Usable(YearOf(utc))
      modifies this
      ensures Fresh()
      ensures b == UtcInDst(PointsOf(rules, YearOf(utc)), utc)
    {
      Refresh(utc, dstUTC);
      if stdUTC > dstUTC {
        b := utc >= dstUTC && utc < stdUTC;
      } else {
        b := !(utc >= stdUTC && utc < dstUTC);
      }
    }

    method LocIsDST(local: nat) returns (b: bool)
      requires local < TWO32 && 1 <= YearOf(local) <= 135 && Usable(YearOf(local))
      modifies this
      ensures Fresh()
      ensures b == LocInDst(PointsOf(rules, YearOf(local)), local)
    {
      Refresh(local, dstLoc);
      if stdLoc > dstLoc {
        b := local >= dstLoc && local < stdLoc;
      } else {
        b := !(local >= stdLoc && local < dstLoc);
      }
    }

    /** The result depends on the rules and the instant only, never on earlier conversions. */
    method ToLocalCached(utc: nat) returns (local: nat)
      requires utc < TWO32 && 1 <= YearOf(utc) <= 135 && Usable(YearOf(utc))
      modifies this
      ensures Fresh()
      ensures local == ToLocal(rules, utc)
      ensures InRange(utc) ==>
                local == utc + 60 * (if InDaylight(ChangesOf(rules, rules.std.offset, rules.dst.offset), utc)
                                     then rules.dst.offset else rules.std.offset)
    {
      var dst := RefreshAndAskUtc(utc);
      var shift := Shift(if dst then rules.dst else rules.std);
      ToLocalIs(rules, utc, dst, shift);
      if InRange(utc) {
        ToLocalMeaning(rules, utc);
      }
      local := U32(utc + shift);
    }

    method ToUTCCached(local: nat) returns (utc: nat)
      requires local < TWO32 && 1 <= YearOf(local) <= 135 && Usable(YearOf(local))
      modifies this
      ensures Fresh()
      ensures utc == ToUTC(rules, local)
      ensures InRange(local) ==>
                utc == local - 60 * (if InDaylight(ChangesOf(rules, 0, 0), local)
                                     then rules.dst.offset else rules.std.offset)
    {
      var dst := RefreshAndAskLoc(local);
      var shift := Shift(if dst then rules.dst else rules.std);
      ToUTCIs(rules, local, dst, shift);
      if InRange(local) {
        ToUTCMeaning(rules, local);
      }
      utc := U32(local - shift);
    }

    /** The conversions test the year themselves and again inside the question. */
    method RefreshAndAskUtc(utc: nat) returns (b: bool)
      requires utc < TWO32 && 1 <= YearOf(utc) <= 135 && Usable(YearOf(utc))
      modifies this
      ensures Fresh()
      ensures b == UtcInDst(PointsOf(rules, YearOf(utc)), utc)
    {
      Refresh(utc, dstUTC);
      b := UtcIsDST(utc);
    }

    method RefreshAndAskLoc(local: nat) returns (b: bool)
      requires local < TWO32 && 1 <= YearOf(local) <= 135 && Usable(YearOf(local))
      modifies this
      ensures Fresh()
      ensures b == LocInDst(PointsOf(rules, YearOf(local)), local)
    {
      Refresh(local, dstLoc);
      b := LocIsDST(local);
    }
  }
}
