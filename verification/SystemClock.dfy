/** The software clock and the field cache of TimeLib.cpp: now, setTime, the sync calls, and
    refreshCache with its accessors. */
module SystemClock {
  import opened Arithmetic
  import opened Calendar

  // ---------- the field cache ----------

  const ZERO_TM := Tm(0, 0, 0, 0, 0, 0, 0)

  class TimeCache {
    var tm: Tm
    var cacheTime: nat

    /** Static storage: all fields zero, tagged with time 0. */
    constructor ()
      ensures Valid() && tm == ZERO_TM && cacheTime == 0
    {
      tm, cacheTime := ZERO_TM, 0;
    }

    /** The cache holds the fields of its tag. */
    ghost predicate Fresh()
      reads this
    {
      cacheTime < TWO32 && tm == BreakTime(cacheTime)
    }

    /** Kept by every accessor: fresh, or still in its initial state. */
    ghost predicate Valid()
      reads this
    {
      Fresh() || (cacheTime == 0 && tm == ZERO_TM)
    }

    method RefreshCache(t: nat)
      requires t < TWO32
      modifies this
      ensures cacheTime == t && tm == if t == old(cacheTime) then old(tm) else BreakTime(t)
      ensures old(Valid()) ==> Valid() && (Fresh() <==> old(Fresh()) || t != 0)
    {
      EpochFields();
      if t != cacheTime {
        tm := BreakTimeLoop(t);
        BreakTimeIs(tm, t);
        cacheTime := t;
      }
    }

    /** In any state an accessor is right exactly when it breaks the time down anew or the cached
        field is right. In a valid cache hours are right from the very first call, for every time. */
    method Hour(t: nat) returns (r: nat)
      requires t < TWO32
      modifies this
      ensures r == BreakTime(t).hour <==> t != old(cacheTime) || old(tm).hour == BreakTime(t).hour
      ensures old(Valid()) ==> Valid() && r == BreakTime(t).hour
    {
      EpochFields();
      RefreshCache(t);
      r := tm.hour;
    }

    method HourFormat12(t: nat) returns (r: nat)
      requires Valid() && t < TWO32
      modifies this
      ensures Valid() && 1 <= r <= 12
      ensures BreakTime(t).hour in {r, r + 12, r - 12}
    {
      var h := Hour(t);
      r := if h == 0 then 12 else if h > 12 then h - 12 else h;
    }

    /** In a valid cache the month is right exactly when time 0 is not asked for before the first refresh. */
    method Month(t: nat) returns (r: nat)
      requires t < TWO32
      modifies this
      ensures r == BreakTime(t).month <==> t != old(cacheTime) || old(tm).month == BreakTime(t).month
      ensures old(Valid()) ==> Valid() && (r == BreakTime(t).month <==> old(Fresh()) || t != 0)
    {
      EpochFields();
      RefreshCache(t);
      r := tm.month;
    }

    method Day(t: nat) returns (r: nat)
      requires t < TWO32
      modifies this
      ensures r == BreakTime(t).day <==> t != old(cacheTime) || old(tm).day == BreakTime(t).day
      ensures old(Valid()) ==> Valid() && (r == BreakTime(t).day <==> old(Fresh()) || t != 0)
    {
      EpochFields();
      RefreshCache(t);
      r := tm.day;
    }

    method WeekdayOf(t: nat) returns (r: nat)
      requires t < TWO32
      modifies this
      ensures var wd := Weekday(t / SECS_PER_DAY); r == wd <==> t != old(cacheTime) || old(tm).wday == wd
      ensures old(Valid()) ==> Valid() && (r == Weekday(t / SECS_PER_DAY) <==> old(Fresh()) || t != 0)
    {
      EpochFields();
      BreakTimeYear(t);
      RefreshCache(t);
      r := tm.wday;
    }

    /** In a valid cache the year is right from the very first call, for every time. */
    method YearOfTime(t: nat) returns (r: nat)
      requires t < TWO32
      modifies this
      ensures r == 1970 + YearOf(t) <==> t != old(cacheTime) || old(tm).year == YearOf(t)
      ensures old(Valid()) ==> Valid() && r == 1970 + YearOf(t)
    {
      EpochFields();
      BreakTimeYear(t);
      RefreshCache(t);
      r := tm.year + 1970;
    }

    /** The six-argument setTime overwrites the cached fields and keeps the tag, so the tagged
        time now answers with the new fields. */
    method OverwriteFields(hr: Byte, min: Byte, sec: Byte, dy: Byte, mnth: Byte, yr: int) returns (t: nat)
      requires mnth <= 13
      modifies this
      ensures cacheTime == old(cacheTime)
      ensures tm == Tm(sec, min, hr, old(tm).wday, dy, mnth, TwoDigitYear(yr)) && t == MakeTime(tm)
    {
      tm := Tm(sec, min, hr, tm.wday, dy, mnth, TwoDigitYear(yr));
      t := MakeTimeLoop(tm);
    }
  }

  /** After the six-argument setTime the hour of the tagged time is the one given, and that of any
      other time is right: the accessors go wrong for exactly one time. */
  method HourAfterOverwrite(cache: TimeCache, hr: Byte, min: Byte, sec: Byte, dy: Byte, mnth: Byte, yr: int, t: nat)
    returns (r: nat)
    requires mnth <= 13 && t < TWO32
    modifies cache
    ensures r == BreakTime(t).hour <==> t != old(cache.cacheTime) || hr == BreakTime(t).hour
  {
    var instant := cache.OverwriteFields(hr, min, sec, dy, mnth, yr);
    r := cache.Hour(t);
  }

  /** Years above 99 are full years, the others count from 2000; stored in a byte from 1970. */
  function TwoDigitYear(yr: int): Byte {
    (if yr > 99 then yr - 1970 else yr + 30) % 256
  }

  /** Both ways of giving a year: in full from 1970, or in two digits from 2000. */
  lemma YearForms(yr: int)
    ensures 1970 <= yr <= 2225 ==> 1970 + TwoDigitYear(yr) == yr
    ensures 0 <= yr <= 99 ==> 1970 + TwoDigitYear(yr) == 2000 + yr
  {
    if 1970 <= yr <= 2225 {
      DivMod(yr - 1970, 256, 0, yr - 1970);
    } else if 0 <= yr <= 99 {
      DivMod(yr + 30, 256, 0, yr + 30);
    }
  }

  lemma EpochFields()
    ensures BreakTime(0) == Tm(0, 0, 0, 5, 1, 1, 0)
  {
    BreakTimeIs(Tm(0, 0, 0, 5, 1, 1, 0), 0);
  }

  // ---------- the clock ----------

  datatype Status = TimeNotSet | TimeNeedsSync | TimeSet

  datatype Clock = Clock(sysTime: nat, prevMillis: nat, nextSyncTime: nat, status: Status,
                         syncInterval: nat, hasProvider: bool) {
    predicate Fits() {
      sysTime < TWO32 && prevMillis < TWO32
    }
  }

  const BOOT := Clock(0, 0, 0, TimeNotSet, 300, false)

  /** Difference of two readings of the wrapping millisecond counter. */
  function Elapsed(prev: nat, now: nat): (e: nat)
    ensures e < TWO32
  {
    U32(now - prev)
  }

  /** Whole seconds move from the counter into sysTime; the remainder stays in prevMillis. */
  function Tick(c: Clock, millis: nat): Clock {
    var n := Elapsed(c.prevMillis, millis) / 1000;
    c.(sysTime := U32(c.sysTime + n), prevMillis := U32(c.prevMillis + 1000 * n))
  }

  function AfterSet(c: Clock, t: nat, millis: nat): Clock {
    c.(sysTime := U32(t), nextSyncTime := U32(U32(t) + c.syncInterval), status := TimeSet, prevMillis := millis)
  }

  /** The sync attempt of now(): `reply` is what the provider returns, 0 for no time. */
  function AfterSync(c: Clock, reply: nat, millis: nat): Clock {
    if c.nextSyncTime > c.sysTime || !c.hasProvider then c
    else if reply != 0 then AfterSet(c, reply, millis)
    else c.(nextSyncTime := U32(c.sysTime + c.syncInterval),
            status := if c.status == TimeNotSet then TimeNotSet else TimeNeedsSync)
  }

  function AfterNow(c: Clock, millis: nat, reply: nat, millisAtSet: nat): Clock {
    AfterSync(Tick(c, millis), reply, millisAtSet)
  }

  /** The public calls, with the readings and replies they meet. */
  datatype Call =
    | Now(millis: nat, reply: nat, millisAtSet: nat)
    | Set(t: nat, millis: nat)
    | Adjust(delta: int)
    | Provider(present: bool, millis: nat, reply: nat, millisAtSet: nat)
    | Interval(interval: nat)

  function Step(c: Clock, call: Call): Clock {
    match call
    case Now(m, r, ms) => AfterNow(c, m, r, ms)
    case Set(t, m) => AfterSet(c, t, m)
    case Adjust(d) => c.(sysTime := U32(c.sysTime + d))
    case Provider(p, m, r, ms) => AfterNow(c.(hasProvider := p, nextSyncTime := c.sysTime), m, r, ms)
    case Interval(i) => c.(syncInterval := U32(i), nextSyncTime := U32(c.sysTime + U32(i)))
  }

  function Run(c: Clock, calls: seq<Call>): Clock {
    if calls == [] then c else Step(Run(c, calls[..|calls| - 1]), calls[|calls| - 1])
  }

  // ---------- status ----------

  /** The call sets the time: directly, or through a provider that is due and replies. */
  predicate SetsTime(c: Clock, call: Call) {
    match call
    case Now(m, r, ms) => c.hasProvider && r != 0 && c.nextSyncTime <= Tick(c, m).sysTime
    case Set(t, m) => true
    case Provider(p, m, r, ms) => p && r != 0 && c.sysTime <= Tick(c, m).sysTime
    case _ => false
  }

  /** Some call of the run sets the time. */
  predicate EverSet(c: Clock, calls: seq<Call>) {
    calls != [] &&
    var front := calls[..|calls| - 1];
    EverSet(c, front) || SetsTime(Run(c, front), calls[|calls| - 1])
  }

  lemma StepStatus(c: Clock, call: Call)
    ensures Step(c, call).status == TimeNotSet <==> c.status == TimeNotSet && !SetsTime(c, call)
  {
  }

  /** In every run the status is timeNotSet exactly as long as no call has set the time. */
  lemma {:induction false} StatusTellsWhetherSet(c: Clock, calls: seq<Call>)
    ensures Run(c, calls).status == TimeNotSet <==> c.status == TimeNotSet && !EverSet(c, calls)
  {
    if calls != [] {
      var front := calls[..|calls| - 1];
      StatusTellsWhetherSet(c, front);
      StepStatus(Run(c, front), calls[|calls| - 1]);
    }
  }

  /** Once set, never "not set" again, whatever calls follow. */
  lemma NeverUnset(c: Clock, calls: seq<Call>, more: seq<Call>)
    requires Run(c, calls).status != TimeNotSet
    ensures Run(Run(c, calls), more).status != TimeNotSet
  {
    StatusTellsWhetherSet(Run(c, calls), more);
  }

  // ---------- no drift ----------

  /** `base` is true time in milliseconds, unwrapped, at which prevMillis was reached. */
  ghost predicate Anchored(c: Clock, base: nat) {
    c.Fits() && c.prevMillis == U32(base)
  }

  /** One reading at true time `now`: seconds are exact precisely when the counter has not gone
      all the way round since prevMillis. */
  lemma TickExactIff(c: Clock, base: nat, now: nat)
    requires Anchored(c, base) && base <= now
    ensures Elapsed(c.prevMillis, U32(now)) == U32(now - base)
    ensures Elapsed(c.prevMillis, U32(now)) / 1000 == (now - base) / 1000 <==> now - base < TWO32
  {
    var x := now - base;
    Wraps(now);
    Wraps(base);
    SameU32(x, U32(now) - U32(base), now / TWO32 - base / TWO32);
    if x >= TWO32 {
      Wraps(x);
      MulMono(TWO32, 1, x / TWO32);
      SmallerQuotient(U32(x), x);
    }
  }

  lemma SmallerQuotient(a: nat, b: nat)
    requires a + 1000 <= b
    ensures a / 1000 < b / 1000
  {
  }

  lemma Wraps(x: int)
    ensures x == U32(x) + TWO32 * (x / TWO32)
  {
    U32Mod(x);
  }

  lemma SameU32(a: int, b: int, k: int)
    requires a == b + TWO32 * k
    ensures U32(a) == U32(b)
  {
    U32Mod(a);
    U32Mod(b);
    DivMod(a, TWO32, b / TWO32 + k, b % TWO32);
  }

  lemma TickIs(c: Clock, millis: nat, n: nat)
    requires 1000 * n <= Elapsed(c.prevMillis, millis) < 1000 * n + 1000
    ensures Tick(c, millis) == c.(sysTime := U32(c.sysTime + n), prevMillis := U32(c.prevMillis + 1000 * n))
  {
    DivMod(Elapsed(c.prevMillis, millis), 1000, n, Elapsed(c.prevMillis, millis) - 1000 * n);
  }

  /** One exact tick of `n` seconds moves the anchor by as much. */
  lemma TickAnchors(c: Clock, base: nat, now: nat, n: nat)
    requires Anchored(c, base) && now - base < TWO32 && base + 1000 * n <= now < base + 1000 * n + 1000
    ensures Tick(c, U32(now)) == c.(sysTime := U32(c.sysTime + n), prevMillis := U32(base + 1000 * n))
    ensures Anchored(Tick(c, U32(now)), base + 1000 * n)
  {
    TickExactIff(c, base, now);
    TickIs(c, U32(now), n);
    U32Add(base, 1000 * n);
  }

  lemma U32Add(a: int, b: int)
    ensures U32(U32(a) + b) == U32(a + b)
  {
    Wraps(a);
    SameU32(a + b, U32(a) + b, a / TWO32);
  }

  /** A run of now() alone, at true times `times`. */
  function Ticks(c: Clock, times: seq<nat>): Clock {
    if times == [] then c else Tick(Ticks(c, times[..|times| - 1]), U32(times[|times| - 1]))
  }

  function LastOf(base: nat, times: seq<nat>): nat {
    if times == [] then base else times[|times| - 1]
  }

  /** Readings in order of time, not before `base`. */
  ghost predicate Ordered(base: nat, times: seq<nat>) {
    times == [] ||
    var front := times[..|times| - 1];
    Ordered(base, front) && LastOf(base, front) <= LastOf(base, times)
  }

  lemma {:induction false} OrderedBounds(base: nat, times: seq<nat>)
    requires Ordered(base, times)
    ensures base <= LastOf(base, times)
  {
    if times != [] {
      OrderedBounds(base, times[..|times| - 1]);
    }
  }

  /** Whole seconds elapsed at the last reading, and the second boundary the counter is then left at. */
  ghost function Seconds(base: nat, times: seq<nat>): nat
    requires Ordered(base, times)
  {
    OrderedBounds(base, times);
    (LastOf(base, times) - base) / 1000
  }

  ghost function Boundary(base: nat, times: seq<nat>): nat
    requires Ordered(base, times)
  {
    base + 1000 * Seconds(base, times)
  }

  /** How far the last reading lies past the boundary the one before has left. */
  ghost function Reach(base: nat, times: seq<nat>): int
    requires Ordered(base, times) && times != []
  {
    LastOf(base, times) - Boundary(base, times[..|times| - 1])
  }

  /** `d` shows at true time `last` the start plus the `n` whole seconds elapsed since `base`,
      and the rest of the elapsed time is kept in prevMillis. */
  ghost predicate OnTime(c: Clock, base: nat, d: Clock, last: nat, n: nat) {
    && base + 1000 * n <= last < base + 1000 * n + 1000
    && d.sysTime == U32(c.sysTime + n) && Anchored(d, base + 1000 * n)
  }

  /** After every reading of the run the clock is on time. */
  ghost predicate AlwaysOnTime(c: Clock, base: nat, times: seq<nat>)
    requires Ordered(base, times)
  {
    && OnTime(c, base, Ticks(c, times), LastOf(base, times), Seconds(base, times))
    && (times == [] || AlwaysOnTime(c, base, times[..|times| - 1]))
  }

  /** No reading skips whole turns of the counter, but for multiples of 1000 turns: these are
      multiples of 2^32 seconds, after which the 32-bit clock shows the same again. */
  ghost predicate NoTurnMissed(base: nat, times: seq<nat>)
    requires Ordered(base, times)
  {
    times == [] || (Reach(base, times) / TWO32 % 1000 == 0 && NoTurnMissed(base, times[..|times| - 1]))
  }

  /** Exactly when now() never drifts: over any run, through any number of counter turns. */
  lemma {:induction false} OnTimeIff(c: Clock, base: nat, times: seq<nat>)
    requires Anchored(c, base) && Ordered(base, times)
    ensures AlwaysOnTime(c, base, times) <==> NoTurnMissed(base, times)
    decreases |times|
  {
    OrderedBounds(base, times);
    if times == [] {
      assert (base - base) / 1000 == 0;
    } else {
      var front := times[..|times| - 1];
      OnTimeIff(c, base, front);
      if AlwaysOnTime(c, base, front) {
        LastStep(c, base, times, Ticks(c, front));
      }
    }
  }

  lemma LastStep(c: Clock, base: nat, times: seq<nat>, d: Clock)
    requires Ordered(base, times) && times != []
    requires var front := times[..|times| - 1]; OnTime(c, base, d, LastOf(base, front), Seconds(base, front))
    ensures OnTime(c, base, Tick(d, U32(LastOf(base, times))), LastOf(base, times), Seconds(base, times))
            <==> Reach(base, times) / TWO32 % 1000 == 0
  {
    var front := times[..|times| - 1];
    OrderedBounds(base, front);
    SecondsGrow(LastOf(base, front) - base, LastOf(base, times) - base);
    TickOnTimeIff(c, base, d, Seconds(base, front), LastOf(base, times), Seconds(base, times));
  }

  /** One more reading keeps the clock on time exactly if it misses no turn. */
  lemma TickOnTimeIff(c: Clock, base: nat, d: Clock, k: nat, last: nat, n: nat)
    requires Anchored(d, base + 1000 * k) && d.sysTime == U32(c.sysTime + k)
    requires k <= n && base + 1000 * n <= last < base + 1000 * n + 1000 && base + 1000 * k <= last
    ensures OnTime(c, base, Tick(d, U32(last)), last, n) <==> (last - (base + 1000 * k)) / TWO32 % 1000 == 0
  {
    var anchor, m := base + 1000 * k, U32(last - (base + 1000 * k)) / 1000;
    TickLands(d, c.sysTime + k, anchor, last, m);
    LandsOnTimeIff(c, base, Tick(d, U32(last)), k, last, n, m, c.sysTime + k + m, anchor + 1000 * m);
  }

  lemma LandsOnTimeIff(c: Clock, base: nat, e: Clock, k: nat, last: nat, n: nat, m: nat, seconds: nat, anchor: nat)
    requires k <= n && base + 1000 * n <= last < base + 1000 * n + 1000 && base + 1000 * k <= last
    requires m == U32(last - (base + 1000 * k)) / 1000
    requires seconds == c.sysTime + k + m && anchor == base + 1000 * k + 1000 * m
    requires e.sysTime == U32(seconds) && e.prevMillis == U32(anchor)
    ensures OnTime(c, base, e, last, n) <==> (last - (base + 1000 * k)) / TWO32 % 1000 == 0
  {
    var x := last - (base + 1000 * k);
    TurnsIff(seconds, anchor, x, m, n - k, c.sysTime + n, base + 1000 * n);
    OnTimeMeans(c, base, e, last, n, U32(c.sysTime + n), U32(base + 1000 * n));
  }

  lemma OnTimeMeans(c: Clock, base: nat, e: Clock, last: nat, n: nat, sum: nat, at: nat)
    requires base + 1000 * n <= last < base + 1000 * n + 1000 && e.sysTime < TWO32
    requires sum == U32(c.sysTime + n) && at == U32(base + 1000 * n)
    ensures OnTime(c, base, e, last, n) <==> e.sysTime == sum && e.prevMillis == at
  {
  }

  lemma TickLands(d: Clock, seconds: nat, anchor: nat, last: nat, m: nat)
    requires Anchored(d, anchor) && d.sysTime == U32(seconds) && anchor <= last && m == U32(last - anchor) / 1000
    ensures Tick(d, U32(last)) == d.(sysTime := U32(seconds + m), prevMillis := U32(anchor + 1000 * m))
  {
    TickExactIff(d, anchor, last);
    Thousands(U32(last - anchor), m);
    TickIs(d, U32(last), m);
    U32Add(seconds, m);
    U32Add(anchor, 1000 * m);
  }

  /** `m` seconds have been counted where `n` have passed. Both registers hold what they should
      exactly when the turns missed are a multiple of 1000. */
  lemma TurnsIff(seconds: nat, anchor: nat, x: nat, m: nat, n: nat, secondsThen: nat, anchorThen: nat)
    requires 1000 * n <= x < 1000 * n + 1000 && m == U32(x) / 1000
    requires secondsThen == seconds - m + n && anchorThen == anchor - 1000 * m + 1000 * n
    ensures U32(seconds) == U32(secondsThen) && U32(anchor) == U32(anchorThen) <==> x / TWO32 % 1000 == 0
  {
    var q := x / TWO32;
    Wraps(x);
    Thousands(U32(x), m);
    if q % 1000 == 0 {
      WholeTurns(x, U32(x), m, n, q / 1000);
      SameU32(secondsThen, seconds, q / 1000);
      SameU32(anchorThen, anchor, 1000 * (q / 1000));
    } else if U32(seconds) == U32(secondsThen) {
      EqualMeansWhole(seconds, x, U32(x), m, n, q, secondsThen);
    }
  }

  lemma EqualMeansWhole(seconds: nat, x: nat, y: nat, m: nat, n: nat, q: nat, secondsThen: nat)
    requires x == y + TWO32 * q && 1000 * n <= x < 1000 * n + 1000 && 1000 * m <= y < 1000 * m + 1000
    requires secondsThen == seconds - m + n && U32(seconds) == U32(secondsThen)
    ensures q % 1000 == 0
  {
    var p := EqualU32(secondsThen, seconds);
    TurnsFrom(x, y, m, n, q, p);
  }

  lemma Thousands(y: nat, m: nat)
    requires m == y / 1000
    ensures 1000 * m <= y < 1000 * m + 1000
  {
  }

  lemma WholeTurns(x: nat, y: nat, m: nat, n: nat, p: nat)
    requires x == y + TWO32 * (1000 * p) && 1000 * n <= x < 1000 * n + 1000 && 1000 * m <= y < 1000 * m + 1000
    ensures n == m + TWO32 * p
  {
  }

  lemma TurnsFrom(x: nat, y: nat, m: nat, n: nat, q: nat, p: int)
    requires x == y + TWO32 * q && 1000 * n <= x < 1000 * n + 1000 && 1000 * m <= y < 1000 * m + 1000
    requires n == m + TWO32 * p
    ensures q == 1000 * p
  {
  }

  lemma EqualU32(a: int, b: int) returns (p: int)
    requires U32(a) == U32(b)
    ensures a == b + TWO32 * p
  {
    Wraps(a);
    Wraps(b);
    p := a / TWO32 - b / TWO32;
  }

  lemma SecondsGrow(a: nat, b: nat)
    requires a <= b
    ensures a / 1000 <= b / 1000
    ensures 1000 * (a / 1000) <= a < 1000 * (a / 1000) + 1000
    ensures 1000 * (b / 1000) <= b < 1000 * (b / 1000) + 1000
  {
  }

  /** Every reading is less than 2^32 ms past the boundary the one before has left. */
  ghost predicate InReach(base: nat, times: seq<nat>)
    requires Ordered(base, times)
  {
    times == [] || (Reach(base, times) < TWO32 && InReach(base, times[..|times| - 1]))
  }

  /** Every reading is less than 2^32 seconds past it: 136 years. */
  ghost predicate WithinAnAge(base: nat, times: seq<nat>)
    requires Ordered(base, times)
  {
    times == [] || (Reach(base, times) < 1000 * TWO32 && WithinAnAge(base, times[..|times| - 1]))
  }

  /** Every reading is less than 2^32 - 999 ms after the one before. */
  ghost predicate CloseTogether(base: nat, times: seq<nat>) {
    times == [] ||
    var front := times[..|times| - 1];
    LastOf(base, times) < LastOf(base, front) + TWO32 - 999 && CloseTogether(base, front)
  }

  /** No drift: within an age, every run is on time exactly if each reading is in reach. */
  lemma NoDrift(c: Clock, base: nat, times: seq<nat>)
    requires Anchored(c, base) && Ordered(base, times) && WithinAnAge(base, times)
    ensures AlwaysOnTime(c, base, times) <==> InReach(base, times)
  {
    OnTimeIff(c, base, times);
    InReachIff(base, times);
  }

  lemma {:induction false} InReachIff(base: nat, times: seq<nat>)
    requires Ordered(base, times) && WithinAnAge(base, times)
    ensures NoTurnMissed(base, times) <==> InReach(base, times)
    decreases |times|
  {
    if times != [] {
      InReachIff(base, times[..|times| - 1]);
      ReachNotNegative(base, times);
      TurnsBelow(Reach(base, times));
    }
  }

  lemma ReachNotNegative(base: nat, times: seq<nat>)
    requires Ordered(base, times) && times != []
    ensures Reach(base, times) >= 0
    ensures var front := times[..|times| - 1]; Reach(base, times) <= LastOf(base, times) - LastOf(base, front) + 999
  {
    var front := times[..|times| - 1];
    OrderedBounds(base, front);
    Thousands(LastOf(base, front) - base, Seconds(base, front));
  }

  lemma TurnsBelow(x: nat)
    requires x < 1000 * TWO32
    ensures x / TWO32 % 1000 == 0 <==> x < TWO32
  {
    Wraps(x);
    var q := x / TWO32;
    assert q < 1000;
  }

  /** Readings less than 2^32 - 999 ms apart are in reach, whatever remainder was carried over. */
  lemma {:induction false} CloseIsInReach(base: nat, times: seq<nat>)
    requires Ordered(base, times) && CloseTogether(base, times)
    ensures InReach(base, times) && WithinAnAge(base, times)
    decreases |times|
  {
    if times != [] {
      CloseIsInReach(base, times[..|times| - 1]);
      ReachNotNegative(base, times);
    }
  }

  /** Calls less than 2^32 ms apart are not quite enough: with 999 ms carried over, a gap of
      2^32 - 1 ms loses a whole turn of the counter. */
  lemma GapJustBelow32BitsDrifts()
    ensures Tick(Tick(BOOT, 999), (999 + TWO32 - 1) % TWO32).sysTime == 0
    ensures (999 + TWO32 - 1) / 1000 == 4294968
  {
    DivMod(999 + TWO32 - 1, 1000, 4294968, 294);
  }

  // ---------- what every run of calls shows ----------

  /** A call whose readings are in true time, as the wrapping counter shows them. */
  function Seen(call: Call): Call {
    match call
    case Now(at, r, setAt) => Now(U32(at), r, U32(setAt))
    case Set(t, at) => Set(t, U32(at))
    case Provider(p, at, r, setAt) => Provider(p, U32(at), r, U32(setAt))
    case _ => call
  }

  /** A run of calls whose readings are in true time. */
  function RunAt(c: Clock, calls: seq<Call>): Clock {
    if calls == [] then c else Step(RunAt(c, calls[..|calls| - 1]), Seen(calls[|calls| - 1]))
  }

  /** The time the clock was last set to, with the adjustments since; when that was in true time;
      and when the clock was last read. */
  datatype Origin = Origin(value: int, since: nat, read: nat) {
    /** Whole seconds from then to the last reading. */
    function Seconds(): int {
      (read - since) / 1000
    }

    /** The time the clock should show at the last reading. */
    function Shown(): int {
      value + Seconds()
    }

    /** The second boundary before the last reading. */
    function Anchor(): int {
      since + 1000 * Seconds()
    }
  }

  /** The clock shows the right time and keeps the rest of the second. */
  ghost predicate Tells(c: Clock, o: Origin) {
    o.since <= o.read && c.sysTime == U32(o.Shown()) && c.prevMillis == U32(o.Anchor())
  }

  /** The provider is asked at this reading: there is one, and its time has come. */
  predicate Asks(c: Clock, millis: nat) {
    c.hasProvider && c.nextSyncTime <= Tick(c, millis).sysTime
  }

  /** The origin after a call: setting the time, directly or by a reply, starts a new one. */
  function Follow(o: Origin, c: Clock, call: Call): Origin {
    match call
    case Now(at, r, setAt) => if Asks(c, U32(at)) && r != 0 then Origin(r, setAt, setAt) else o.(read := at)
    case Set(t, at) => Origin(t, at, at)
    case Adjust(d) => o.(value := o.value + d)
    case Provider(p, at, r, setAt) =>
      if p && r != 0 && c.sysTime <= Tick(c, U32(at)).sysTime then Origin(r, setAt, setAt) else o.(read := at)
    case Interval(i) => o
  }

  function Follows(o: Origin, c: Clock, calls: seq<Call>): Origin {
    if calls == [] then o
    else
      var front := calls[..|calls| - 1];
      Follow(Follows(o, c, front), RunAt(c, front), calls[|calls| - 1])
  }

  /** A reading not before the last one and less than 2^32 ms past the second boundary it left. */
  predicate Reachable(o: Origin, call: Call) {
    match call
    case Now(at, r, setAt) => o.read <= at < o.Anchor() + TWO32
    case Provider(p, at, r, setAt) => o.read <= at < o.Anchor() + TWO32
    case _ => true
  }

  predicate AllReachable(o: Origin, c: Clock, calls: seq<Call>) {
    calls == [] ||
    var front := calls[..|calls| - 1];
    AllReachable(o, c, front) && Reachable(Follows(o, c, front), calls[|calls| - 1])
  }

  lemma TickTells(c: Clock, o: Origin, at: nat)
    requires Tells(c, o) && o.read <= at < o.Anchor() + TWO32
    ensures Tells(Tick(c, U32(at)), o.(read := at))
    ensures Tick(c, U32(at)).nextSyncTime == c.nextSyncTime
  {
    var q := o.(read := at);
    SecondsBounds(o);
    SecondsBounds(q);
    TickStep(c, o.Shown(), o.Anchor(), q, at, q.Seconds() - o.Seconds());
  }

  lemma TickStep(c: Clock, shown: int, anchor: nat, q: Origin, at: nat, n: nat)
    requires c.sysTime == U32(shown) && c.prevMillis == U32(anchor) && q.since <= q.read
    requires shown + n == q.Shown() && anchor + 1000 * n == q.Anchor()
    requires q.Anchor() <= at < q.Anchor() + 1000 && at < anchor + TWO32
    ensures Tells(Tick(c, U32(at)), q)
  {
    TickFrom(c, shown, anchor, at, n);
    TellsBy(Tick(c, U32(at)), q, shown + n, anchor + 1000 * n);
  }

  lemma TellsBy(d: Clock, o: Origin, shown: int, anchor: int)
    requires o.since <= o.read && shown == o.Shown() && anchor == o.Anchor()
    requires d.sysTime == U32(shown) && d.prevMillis == U32(anchor)
    ensures Tells(d, o)
  {
  }

  lemma SecondsBounds(o: Origin)
    requires o.since <= o.read
    ensures 0 <= o.Seconds() && o.since + 1000 * o.Seconds() <= o.read < o.since + 1000 * o.Seconds() + 1000
  {
  }

  /** A reading `n` whole seconds after the second boundary `anchor`. */
  lemma TickFrom(c: Clock, shown: int, anchor: nat, at: nat, n: nat)
    requires c.sysTime == U32(shown) && c.prevMillis == U32(anchor)
    requires anchor + 1000 * n <= at < anchor + 1000 * n + 1000 && at < anchor + TWO32
    ensures var d := Tick(c, U32(at)); d.sysTime == U32(shown + n) && d.prevMillis == U32(anchor + 1000 * n)
  {
    TickAnchors(c, anchor, at, n);
    SumIs(c.sysTime, shown, n, shown + n);
  }

  lemma SumIs(x: nat, a: int, b: int, sum: int)
    requires x == U32(a) && sum == a + b
    ensures U32(x + b) == U32(sum)
  {
    U32Add(a, b);
  }

  lemma SetTells(c: Clock, t: nat, at: nat)
    ensures var d := AfterSet(c, t, U32(at));
            && Tells(d, Origin(t, at, at))
            && d.status == TimeSet && d.nextSyncTime == U32(t + c.syncInterval)
            && d.hasProvider == c.hasProvider && d.syncInterval == c.syncInterval
  {
    assert (at - at) / 1000 == 0;
    U32Add(t, c.syncInterval);
  }

  lemma StepTells(c: Clock, o: Origin, call: Call)
    requires Tells(c, o) && Reachable(o, call)
    ensures Tells(Step(c, Seen(call)), Follow(o, c, call))
  {
    match call
    case Now(at, r, setAt) =>
      NowTells(c, o, at, r, setAt);
    case Set(t, at) =>
      SetTells(c, t, at);
    case Adjust(d) =>
      U32Add(o.Shown(), d);
    case Provider(p, at, r, setAt) =>
      NowTells(c.(hasProvider := p, nextSyncTime := c.sysTime), o, at, r, setAt);
    case Interval(i) =>
  }

  lemma NowTells(c: Clock, o: Origin, at: nat, reply: nat, setAt: nat)
    requires Tells(c, o) && o.read <= at < o.Anchor() + TWO32
    ensures Tells(AfterNow(c, U32(at), reply, U32(setAt)),
                  if Asks(c, U32(at)) && reply != 0 then Origin(reply, setAt, setAt) else o.(read := at))
  {
    TickTells(c, o, at);
    SyncTells(c, Tick(c, U32(at)), o.(read := at), U32(at), reply, setAt);
  }

  lemma SyncTells(c: Clock, d: Clock, o: Origin, millis: nat, reply: nat, setAt: nat)
    requires Tells(d, o) && d == Tick(c, millis)
    ensures Tells(AfterSync(d, reply, U32(setAt)),
                  if Asks(c, millis) && reply != 0 then Origin(reply, setAt, setAt) else o)
  {
    SetTells(d, reply, setAt);
  }

  /** Main result: after any run of calls in any order, the clock shows the time it was last set to,
      by a caller or by the provider, plus the adjustments and the whole seconds since then. */
  lemma {:induction false} ShowsTime(c: Clock, o: Origin, calls: seq<Call>)
    requires Tells(c, o) && AllReachable(o, c, calls)
    ensures Tells(RunAt(c, calls), Follows(o, c, calls))
  {
    if calls != [] {
      var front := calls[..|calls| - 1];
      ShowsTime(c, o, front);
      StepTells(RunAt(c, front), Follows(o, c, front), calls[|calls| - 1]);
    }
  }

  /** Setting the time restarts the counting from any state, and over any readings in reach that
      follow the clock shows the whole seconds from `base` to the last one. */
  lemma SetThenRead(c: Clock, t: nat, base: nat, times: seq<nat>)
    requires Ordered(base, times) && InReach(base, times)
    ensures var d := Step(c, Set(t, U32(base)));
            && Anchored(d, base) && d.status == TimeSet && d.nextSyncTime == U32(t + c.syncInterval)
            && Ticks(d, times).sysTime == U32(t + Seconds(base, times))
  {
    SetTells(c, t, base);
    ReadOnTime(Step(c, Set(t, U32(base))), t, base, times);
  }

  lemma ReadOnTime(d: Clock, t: nat, base: nat, times: seq<nat>)
    requires Anchored(d, base) && d.sysTime == U32(t) && Ordered(base, times) && InReach(base, times)
    ensures Ticks(d, times).sysTime == U32(t + Seconds(base, times))
  {
    InReachIsWithinAnAge(base, times);
    NoDrift(d, base, times);
    U32Add(t, Seconds(base, times));
  }

  lemma {:induction false} InReachIsWithinAnAge(base: nat, times: seq<nat>)
    requires Ordered(base, times) && InReach(base, times)
    ensures WithinAnAge(base, times)
    decreases |times|
  {
    if times != [] {
      InReachIsWithinAnAge(base, times[..|times| - 1]);
    }
  }

  /** At a reading when the provider is asked: a reply sets the clock to it, counted from the
      moment of setting; no reply leaves the time and asks again one interval later. At any other
      reading the reply plays no part. */
  lemma NowAsks(c: Clock, o: Origin, at: nat, reply: nat, setAt: nat)
    requires Tells(c, o) && o.read <= at < o.Anchor() + TWO32
    ensures var d := Step(c, Seen(Now(at, reply, setAt)));
            if !Asks(c, U32(at)) then d == Tick(c, U32(at)) && Tells(d, o.(read := at))
            else if reply != 0 then
              && Tells(d, Origin(reply, setAt, setAt))
              && d.status == TimeSet && d.nextSyncTime == U32(reply + c.syncInterval)
            else
              && Tells(d, o.(read := at)) && d.nextSyncTime == U32(o.(read := at).Shown() + c.syncInterval)
              && d.status == if c.status == TimeNotSet then TimeNotSet else TimeNeedsSync
  {
    TickTells(c, o, at);
    SetTells(Tick(c, U32(at)), reply, setAt);
    U32Add(o.(read := at).Shown(), c.syncInterval);
  }

  /** A new interval counts from the time shown, which it leaves alone. */
  lemma IntervalFromNow(c: Clock, o: Origin, interval: nat)
    requires Tells(c, o) && interval < TWO32
    ensures var d := Step(c, Interval(interval));
            && Tells(d, o) && d.syncInterval == interval && d.nextSyncTime == U32(o.Shown() + interval)
            && d.status == c.status && d.hasProvider == c.hasProvider
  {
    U32Add(o.Shown(), interval);
  }

  /** Within 32-bit time, the provider is asked exactly when the seconds shown have reached the
      time of the next attempt. */
  lemma AsksIff(c: Clock, o: Origin, at: nat)
    requires Tells(c, o) && o.read <= at < o.Anchor() + TWO32
    requires c.hasProvider && 0 <= o.(read := at).Shown() < TWO32
    ensures Asks(c, U32(at)) <==> c.nextSyncTime <= o.value + (at - o.since) / 1000
  {
    TickTells(c, o, at);
  }

  /** A provider is asked as soon as it is installed, and its reply sets the clock. */
  lemma InstallAsks(c: Clock, o: Origin, at: nat, reply: nat, setAt: nat)
    requires Tells(c, o) && o.read <= at < o.Anchor() + TWO32
    requires 0 <= o.value && o.(read := at).Shown() < TWO32 && reply != 0
    ensures var d := Step(c, Seen(Provider(true, at, reply, setAt)));
            Tells(d, Origin(reply, setAt, setAt)) && d.status == TimeSet && d.hasProvider
  {
    var due := c.(hasProvider := true, nextSyncTime := c.sysTime);
    SecondsGrow(o.read - o.since, at - o.since);
    InRangeStays(o.Shown());
    AsksIff(due, o, at);
    NowAsks(due, o, at, reply, setAt);
  }

  /** now() at a reading before the clock shows the second `due`. */
  predicate ReadBefore(o: Origin, due: int, call: Call) {
    call.Now? && o.value + (call.millis - o.since) / 1000 < due
  }

  /** Readings before the next attempt is due change nothing but the time shown. */
  lemma {:induction false} QuietUntilDue(c: Clock, o: Origin, due: nat, calls: seq<Call>)
    requires Tells(c, o) && c.hasProvider && c.nextSyncTime == due < TWO32 && 0 <= o.value
    requires AllReachable(o, c, calls) && forall k :: 0 <= k < |calls| ==> ReadBefore(o, due, calls[k])
    ensures var d, q := RunAt(c, calls), Follows(o, c, calls);
            && Tells(d, q) && q.value == o.value && q.since == o.since && o.read <= q.read
            && d.hasProvider && d.nextSyncTime == due
  {
    if calls != [] {
      var front, call := calls[..|calls| - 1], calls[|calls| - 1];
      QuietUntilDue(c, o, due, front);
      var d, q := RunAt(c, front), Follows(o, c, front);
      assert ReadBefore(o, due, call);
      AsksIff(d, q, call.millis);
      NowAsks(d, q, call.millis, call.reply, call.millisAtSet);
    }
  }

  /** The next attempt comes exactly `syncInterval` seconds after the last one or after the time was
      set, at the first reading from then on. */
  lemma NextAttempt(c: Clock, o: Origin, calls: seq<Call>, at: nat)
    requires Tells(c, o) && c.hasProvider && 0 <= o.value
    requires c.nextSyncTime == o.Shown() + c.syncInterval < TWO32
    requires AllReachable(o, c, calls)
    requires forall k :: 0 <= k < |calls| ==> ReadBefore(o, c.nextSyncTime, calls[k])
    requires Follows(o, c, calls).read <= at < Follows(o, c, calls).Anchor() + TWO32
    requires o.value + (at - o.since) / 1000 < TWO32
    ensures Asks(RunAt(c, calls), U32(at)) <==> (at - o.since) / 1000 >= o.Seconds() + c.syncInterval
  {
    QuietUntilDue(c, o, c.nextSyncTime, calls);
    DueIff(RunAt(c, calls), Follows(o, c, calls), o, c.nextSyncTime, c.syncInterval, at);
  }

  lemma DueIff(d: Clock, q: Origin, o: Origin, due: nat, interval: nat, at: nat)
    requires Tells(d, q) && q.value == o.value && q.since == o.since && d.hasProvider && d.nextSyncTime == due
    requires due == o.Shown() + interval && 0 <= o.value + (at - o.since) / 1000 < TWO32
    requires q.read <= at < q.Anchor() + TWO32
    ensures Asks(d, U32(at)) <==> (at - o.since) / 1000 >= o.Seconds() + interval
  {
    AsksIff(d, q, at);
  }

  /** After setTime that is `syncInterval` seconds of true time, to the millisecond. */
  lemma NextAttemptAfterSet(c: Clock, t: nat, base: nat, calls: seq<Call>, at: nat)
    requires c.hasProvider && t + c.syncInterval < TWO32
    requires var d, o := Step(c, Set(t, U32(base))), Origin(t, base, base);
             && AllReachable(o, d, calls)
             && (forall k :: 0 <= k < |calls| ==> ReadBefore(o, t + c.syncInterval, calls[k]))
             && Follows(o, d, calls).read <= at < Follows(o, d, calls).Anchor() + TWO32
             && t + (at - base) / 1000 < TWO32
    ensures Asks(RunAt(Step(c, Set(t, U32(base))), calls), U32(at)) <==> at - base >= 1000 * c.syncInterval
  {
    SetTells(c, t, base);
    AttemptFrom(Step(c, Set(t, U32(base))), Origin(t, base, base), calls, at, c.syncInterval);
  }

  lemma AttemptFrom(d: Clock, o: Origin, calls: seq<Call>, at: nat, interval: nat)
    requires Tells(d, o) && d.hasProvider && o.read == o.since && 0 <= o.value
    requires d.syncInterval == interval && d.nextSyncTime == o.value + interval < TWO32
    requires AllReachable(o, d, calls) && forall k :: 0 <= k < |calls| ==> ReadBefore(o, d.nextSyncTime, calls[k])
    requires Follows(o, d, calls).read <= at < Follows(o, d, calls).Anchor() + TWO32
    requires o.value + (at - o.since) / 1000 < TWO32
    ensures Asks(RunAt(d, calls), U32(at)) <==> at - o.since >= 1000 * interval
  {
    NextAttempt(d, o, calls, at);
  }

  // ---------- the calls themselves ----------

  /** True-time readings in order, none a whole counter turn past the anchor. */
  ghost predicate GoodReadings(c: Clock, base: nat, readings: seq<nat>) {
    && Anchored(c, base) && |readings| > 0
    && (forall i :: 0 <= i < |readings| ==> base <= readings[i] && readings[i] - base < TWO32)
    && (forall i :: 0 < i < |readings| ==> readings[i - 1] <= readings[i])
  }

  class SystemTime {
    var sysTime: nat
    var prevMillis: nat
    var nextSyncTime: nat
    var status: Status
    var syncInterval: nat
    var getTimePtr: bool

    constructor ()
      ensures State() == BOOT
    {
      sysTime, prevMillis, nextSyncTime, status, syncInterval, getTimePtr := 0, 0, 0, TimeNotSet, 300, false;
    }

    function State(): Clock
      reads this
    {
      Clock(sysTime, prevMillis, nextSyncTime, status, syncInterval, getTimePtr)
    }

    /** The counting loop of now(). millis() is read again before every pass: `readings` are
        these readings as true time, the last one repeating. The loop stops at reading `stop`
        with exactly the seconds due at that moment. */
    method CountSeconds(readings: seq<nat>, ghost base: nat) returns (ghost stop: nat)
      requires GoodReadings(State(), base, readings)
      modifies this`sysTime, this`prevMillis
      ensures stop < |readings| && State() == Tick(old(State()), U32(readings[stop]))
    {
      var i := 0;
      ghost var n := 0;
      while Elapsed(prevMillis, U32(readings[i])) >= 1000
        invariant 0 <= i < |readings| && n >= 0 && base + 1000 * n <= readings[i]
        invariant State() == Counted(old(State()), base, n)
        decreases |readings| - i, readings[i] - (base + 1000 * n)
      {
        CountOne(old(State()), base, n, readings[i]);
        sysTime := U32(sysTime + 1);
        prevMillis := U32(prevMillis + 1000);
        n := n + 1;
        if i + 1 < |readings| {
          i := i + 1;
        }
      }
      CountedIsTick(old(State()), base, n, readings[i]);
      stop := i;
    }

    /** now(): count, then attempt a sync if one is due. */
    method NowCall(readings: seq<nat>, ghost base: nat, reply: nat, millisAtSet: nat)
        returns (t: nat, ghost stop: nat)
      requires GoodReadings(State(), base, readings)
      modifies this
      ensures stop < |readings|
      ensures State() == Step(old(State()), Now(U32(readings[stop]), reply, millisAtSet))
      ensures t == sysTime
    {
      stop := CountSeconds(readings, base);
      if nextSyncTime <= sysTime {
        if getTimePtr {
          if reply != 0 {
            SetTime(reply, millisAtSet);
          } else {
            nextSyncTime := U32(sysTime + syncInterval);
            status := if status == TimeNotSet then TimeNotSet else TimeNeedsSync;
          }
        }
      }
      t := sysTime;
    }

    method SetTime(t: nat, millis: nat)
      modifies this
      ensures State() == Step(old(State()), Set(t, millis))
      ensures millis < TWO32 ==> Tells(State(), Origin(t, millis, millis))
    {
      if millis < TWO32 {
        InRangeStays(millis);
        SetTells(State(), t, millis);
      }
      sysTime := U32(t);
      nextSyncTime := U32(U32(t) + syncInterval);
      status := TimeSet;
      prevMillis := millis;
    }

    method AdjustTime(adjustment: int)
      modifies this
      ensures State() == Step(old(State()), Adjust(adjustment))
    {
      sysTime := U32(sysTime + adjustment);
    }

    method SetSyncProvider(present: bool, readings: seq<nat>, ghost base: nat, reply: nat, millisAtSet: nat)
        returns (ghost stop: nat)
      requires GoodReadings(State(), base, readings)
      modifies this
      ensures stop < |readings|
      ensures State() == Step(old(State()), Provider(present, U32(readings[stop]), reply, millisAtSet))
    {
      getTimePtr := present;
      nextSyncTime := sysTime;
      var time;
      time, stop := NowCall(readings, base, reply, millisAtSet);
    }

    method SetSyncInterval(interval: nat)
      modifies this
      ensures State() == Step(old(State()), Interval(interval))
    {
      syncInterval := U32(interval);
      nextSyncTime := U32(sysTime + syncInterval);
    }

    /** timeStatus() runs now() first, so the answer is up to date. */
    method TimeStatus(readings: seq<nat>, ghost base: nat, reply: nat, millisAtSet: nat)
        returns (s: Status, ghost stop: nat)
      requires GoodReadings(State(), base, readings)
      modifies this
      ensures stop < |readings|
      ensures State() == Step(old(State()), Now(U32(readings[stop]), reply, millisAtSet)) && s == status
    {
      var time;
      time, stop := NowCall(readings, base, reply, millisAtSet);
      s := status;
    }
  }

  /** The clock after `n` passes of the counting loop. */
  ghost function Counted(c: Clock, base: nat, n: nat): Clock {
    c.(sysTime := U32(c.sysTime + n), prevMillis := U32(base + 1000 * n))
  }

  lemma CountOne(c: Clock, base: nat, n: nat, now: nat)
    requires Anchored(c, base) && base + 1000 * n <= now && now - base < TWO32
    ensures var d := Counted(c, base, n);
            && Elapsed(d.prevMillis, U32(now)) == now - (base + 1000 * n)
            && U32(d.sysTime + 1) == U32(c.sysTime + (n + 1))
            && U32(d.prevMillis + 1000) == U32(base + 1000 * (n + 1))
  {
    AtLeastOneSecond(Counted(c, base, n), base + 1000 * n, now);
    U32Add(c.sysTime + n, 1);
    U32Add(base + 1000 * n, 1000);
  }

  /** When the loop stops, the seconds counted are those of one Tick at the last reading. */
  lemma CountedIsTick(c: Clock, base: nat, n: nat, now: nat)
    requires Anchored(c, base) && base + 1000 * n <= now && now - base < TWO32
    requires Elapsed(Counted(c, base, n).prevMillis, U32(now)) < 1000
    ensures Tick(c, U32(now)) == Counted(c, base, n)
  {
    CountOne(c, base, n, now);
    TickAnchors(c, base, now, n);
  }

  lemma AtLeastOneSecond(c: Clock, anchor: nat, now: nat)
    requires Anchored(c, anchor) && anchor <= now && now - anchor < TWO32
    ensures Elapsed(c.prevMillis, U32(now)) == now - anchor
  {
    TickExactIff(c, anchor, now);
  }
}
