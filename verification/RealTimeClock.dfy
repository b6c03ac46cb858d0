/** The battery clock driver of DS1307RTC.cpp: BCD registers behind a serial bus whose
    transmissions may be cut short. */
module RealTimeClock {
  import opened Arithmetic
  import opened Calendar

  datatype Option<T> = None | Some(value: T)

  /** dec2bcd; the result is truncated to a byte. */
  function DecToBcd(num: Byte): Byte {
    (num / 10 * 16 + num % 10) % 256
  }

  function BcdToDec(num: Byte): Byte {
    num / 16 * 10 + num % 16
  }

  /** The two codings are inverse exactly up to 159; years from 2106 on would not survive. */
  lemma BcdInverse(num: Byte)
    ensures BcdToDec(DecToBcd(num)) == num <==> num < 160
    ensures num >= 160 ==> BcdToDec(DecToBcd(num)) == num - 160
    ensures num < 80 ==> DecToBcd(num) < 128
    ensures num < 40 ==> DecToBcd(num) < 64
  {
    var q, d := num / 10, num % 10;
    if num < 160 {
      DivMod(16 * q + d, 256, 0, 16 * q + d);
      DivMod(16 * q + d, 16, q, d);
    } else {
      DivMod(16 * q + d, 256, 1, 16 * (q - 16) + d);
      DivMod(16 * (q - 16) + d, 16, q - 16, d);
    }
  }

  /** Two decimal digits, the tens in the upper half of the byte. */
  lemma BcdDigits(tens: nat, units: nat)
    requires tens <= 9 && units <= 9
    ensures DecToBcd(10 * tens + units) == 16 * tens + units && BcdToDec(16 * tens + units) == 10 * tens + units
  {
    DivMod(10 * tens + units, 10, tens, units);
    DivMod(16 * tens + units, 16, tens, units);
    DivMod(16 * tens + units, 256, 0, 16 * tens + units);
  }

  // ---------- register images ----------

  /** The seven time registers: seconds with the halt bit, minutes, hours, weekday, day, month, year. */
  type Registers = r: seq<Byte> | |r| == 7 witness [0, 0, 0, 0, 0, 0, 0]

  /** The data bytes of the first transmission: the seconds register halts the clock. */
  function Halted(tm: Tm): Registers {
    [0x80, DecToBcd(tm.minute), DecToBcd(tm.hour), DecToBcd(tm.wday), DecToBcd(tm.day), DecToBcd(tm.month),
     DecToBcd((tm.year - 30) % 256)]
  }

  /** The registers once the second transmission has set the seconds and restarted the clock. */
  function Image(tm: Tm): Registers {
    Halted(tm)[0 := DecToBcd(tm.second)]
  }

  /** The fields read back, masks and year offset included. */
  function Fields(r: Registers): Tm {
    Tm(BcdToDec(r[0] % 128), BcdToDec(r[1]), BcdToDec(r[2] % 64), BcdToDec(r[3]), BcdToDec(r[4]), BcdToDec(r[5]),
       (BcdToDec(r[6]) + 30) % 256)
  }

  /** A register that shows `n` in two decimal digits, tens in the upper half. */
  ghost predicate ShowsDigits(b: Byte, n: int) {
    exists tens: nat, units: nat :: TwoDigits(tens, units, n) && b == 16 * tens + units
  }

  predicate TwoDigits(tens: nat, units: nat, n: int) {
    tens <= 9 && units <= 9 && n == 10 * tens + units
  }

  /** The numbers in the chip's registers, in its order; the year counts from 2000. */
  function Numbers(tm: Tm): (n: seq<int>)
    ensures |n| == 7
  {
    [tm.second, tm.minute, tm.hour, tm.wday, tm.day, tm.month, 1970 + tm.year - 2000]
  }

  /** The registers show this date; two digits below 80 leave the halt bit clear. */
  ghost predicate ShowsDate(r: Registers, tm: Tm) {
    forall k :: 0 <= k < 7 ==> ShowsDigits(r[k], Numbers(tm)[k])
  }

  lemma ShowsDigitsIff(b: Byte, n: Byte)
    requires n <= 99
    ensures ShowsDigits(b, n) <==> b == DecToBcd(n)
  {
    BcdDigits(n / 10, n % 10);
    assert TwoDigits(n / 10, n % 10, n);
    if ShowsDigits(b, n) {
      var tens: nat, units: nat :| TwoDigits(tens, units, n) && b == 16 * tens + units;
      BcdDigits(tens, units);
    }
  }

  /** From 2000 to 2099 the registers are written just so, and nothing else shows the date. */
  lemma ImageShows(tm: Tm, r: Registers)
    requires ValidDate(tm) && 1 <= tm.wday <= 7 && 30 <= tm.year < 130
    ensures ShowsDate(r, tm) <==> r == Image(tm)
  {
    var image := Image(tm);
    forall k | 0 <= k < 7 ensures ShowsDigits(r[k], Numbers(tm)[k]) <==> r[k] == image[k] {
      ImageAt(tm, k);
      ShowsDigitsIff(r[k], Numbers(tm)[k]);
    }
    if ShowsDate(r, tm) {
      assert forall k :: 0 <= k < 7 ==> r[k] == image[k];
    }
  }

  lemma ImageAt(tm: Tm, k: nat)
    requires ValidDate(tm) && 1 <= tm.wday <= 7 && 30 <= tm.year < 130 && k < 7
    ensures 0 <= Numbers(tm)[k] <= 99 && Image(tm)[k] == DecToBcd(Numbers(tm)[k])
  {
    DivMod(tm.year - 30, 256, 0, tm.year - 30);
  }

  /** What a reader learns: nothing while the halt bit is set. */
  function Readable(r: Registers): Option<Tm> {
    if r[0] >= 128 then None else Some(Fields(r))
  }

  /** A date survives the registers unchanged from 2000 on; earlier years come back 96 later. */
  lemma ImageReadsBack(tm: Tm)
    requires ValidDate(tm) && 1 <= tm.wday <= 7 && tm.year <= 136
    ensures Readable(Image(tm)) == Some(if tm.year >= 30 then tm else tm.(year := tm.year + 96))
  {
    ClockReadsBack(tm);
    DateReadsBack(tm);
    YearReadsBack(tm);
    var back := if tm.year >= 30 then tm else tm.(year := tm.year + 96);
    FieldsAre(Image(tm), back);
  }

  lemma ClockReadsBack(tm: Tm)
    requires ValidDate(tm)
    ensures var r := Image(tm);
            && r[0] < 128 && BcdToDec(r[0] % 128) == tm.second
            && BcdToDec(r[1]) == tm.minute && BcdToDec(r[2] % 64) == tm.hour
  {
    Digits(tm.second);
    Digits(tm.minute);
    Digits(tm.hour);
  }

  lemma DateReadsBack(tm: Tm)
    requires ValidDate(tm) && 1 <= tm.wday <= 7
    ensures var r := Image(tm);
            BcdToDec(r[3]) == tm.wday && BcdToDec(r[4]) == tm.day && BcdToDec(r[5]) == tm.month
  {
    Digits(tm.wday);
    Digits(tm.day);
    Digits(tm.month);
  }

  lemma YearReadsBack(tm: Tm)
    requires tm.year <= 136
    ensures (BcdToDec(Image(tm)[6]) + 30) % 256 == if tm.year >= 30 then tm.year else tm.year + 96
  {
    YearSurvives(tm.year);
  }

  /** Two-digit numbers below 60 keep their upper bits clear; below 40 the next one too. */
  lemma Digits(num: Byte)
    requires num < 60
    ensures BcdToDec(DecToBcd(num)) == num && DecToBcd(num) % 128 == DecToBcd(num) < 128
    ensures num < 40 ==> DecToBcd(num) % 64 == DecToBcd(num)
  {
    BcdInverse(num);
    DivMod(DecToBcd(num), 128, 0, DecToBcd(num));
    if num < 40 {
      DivMod(DecToBcd(num), 64, 0, DecToBcd(num));
    }
  }

  lemma FieldsAre(r: Registers, tm: Tm)
    requires r[0] < 128 && BcdToDec(r[0] % 128) == tm.second && BcdToDec(r[1]) == tm.minute
    requires BcdToDec(r[2] % 64) == tm.hour && BcdToDec(r[3]) == tm.wday && BcdToDec(r[4]) == tm.day
    requires BcdToDec(r[5]) == tm.month && (BcdToDec(r[6]) + 30) % 256 == tm.year
    ensures Readable(r) == Some(tm)
  {
  }

  lemma YearSurvives(year: Byte)
    requires year <= 136
    ensures (BcdToDec(DecToBcd((year - 30) % 256)) + 30) % 256 == if year >= 30 then year else year + 96
  {
    DivMod(year - 30, 256, if year >= 30 then 0 else -1, if year >= 30 then year - 30 else year + 226);
    BcdInverse((year - 30) % 256);
    var back := if year >= 30 then year else year + 96;
    DivMod(back, 256, 0, back);
  }

  // ---------- set, then get ----------

  lemma DaysTo2000(year: nat)
    requires year == 30
    ensures DaysToYear(year) == 10957
  {
    DaysToYearClosed(year);
  }

  /** Year 30 starts at the second counted for the beginning of 2000. */
  lemma Start2000(y: nat)
    ensures y >= 30 ==> YearStart(y) >= 946684800
    ensures y < 30 ==> YearStart(y + 1) <= 946684800
  {
    var year: nat := 30;
    DaysTo2000(year);
    if y >= year {
      DaysToYearMono(year, y);
    } else {
      DaysToYearMono(y + 1, year);
    }
  }

  /** Storing a 32-bit time and reading the unticked registers gives it back exactly when it is
      not before 2000. */
  lemma GetAfterSet(t: nat)
    requires t < TWO32
    ensures var r := Readable(Image(BreakTime(t)));
            r.Some? && r.value.month <= 13 && (MakeTime(r.value) == t <==> t >= 946684800)
  {
    HasDate(t);
    DateComesBack(BreakTime(t), t);
  }

  lemma DateComesBack(tm: Tm, t: nat)
    requires t < TWO32 && IsDateOf(tm, t)
    ensures var r := Readable(Image(tm));
            r.Some? && r.value.month <= 13 && (MakeTime(r.value) == t <==> t >= 946684800)
  {
    YearAndWeekdayOf(tm, t);
    YearOfIff(t, tm.year);
    DaysBound(tm.year, t);
    ImageReadsBack(tm);
    Start2000(tm.year);
    if tm.year >= 30 {
      MakeOfDate(tm, t);
    } else {
      Later(tm, tm.(year := tm.year + 96));
    }
  }

  lemma DaysBound(year: nat, t: nat)
    requires YearStart(year) <= t < TWO32
    ensures year <= 136
  {
  }

  /** The shifted date is really another instant: it lies decades later, still within 32 bits. */
  lemma Later(a: Tm, b: Tm)
    requires ValidDate(a) && a.year < 30 && b == a.(year := a.year + 96)
    ensures MakeTime(b) > Instant(a)
  {
    DaysToYearMono(a.year, b.year);
    DaysToMonthLeap(a.year, b.year, a.month);
  }

  lemma {:induction false} DaysToMonthLeap(x: nat, y: nat, month: nat)
    requires 1 <= month <= 13
    ensures DaysToMonth(x, month) - 1 <= DaysToMonth(y, month) <= DaysToMonth(x, month) + 1
    ensures month <= 2 ==> DaysToMonth(x, month) == DaysToMonth(y, month)
  {
    if month > 1 {
      DaysToMonthLeap(x, y, month - 1);
    }
  }

  // ---------- torn transmissions ----------

  /** How a transmission ends: all bytes stored, or cut after some of them with an error status. */
  datatype Bus = Acked | Cut(stored: nat)

  /** A transmission addressed to register 0. */
  function Store(r: Registers, data: seq<Byte>, bus: Bus): Registers
    requires |data| <= 7
  {
    var n := if bus.Cut? && bus.stored < |data| then bus.stored else |data|;
    data[..n] + r[n..]
  }

  lemma StoreOne(r: Registers, data: seq<Byte>, n: nat)
    requires n < |data| <= 7
    ensures (data[..n] + r[n..])[n := data[n]] == data[..n + 1] + r[n + 1..]
  {
  }

  /** The registers after write(): the second transmission only follows an acknowledged first. */
  function AfterWrite(r: Registers, tm: Tm, first: Bus, second: Bus): Registers {
    var halted := Store(r, Halted(tm), first);
    if first.Cut? then halted else Store(halted, [DecToBcd(tm.second)], second)
  }

  /** Never a mixture: whatever is cut, a reader gets the old time, the new time, or nothing. */
  lemma NoMixture(r: Registers, tm: Tm, first: Bus, second: Bus)
    requires tm.second < 60
    ensures var seen := Readable(AfterWrite(r, tm, first, second));
            seen == None || seen == Readable(r) || seen == Readable(Image(tm))
    ensures first.Acked? && second == Cut(0) ==> Readable(AfterWrite(r, tm, first, second)) == None
    ensures first.Acked? && second.Acked? ==> AfterWrite(r, tm, first, second) == Image(tm)
  {
    var halted := Store(r, Halted(tm), first);
    if first.Cut? && first.stored == 0 {
      assert halted == r;
    } else {
      assert halted[0] == 0x80;
      if first.Acked? {
        assert halted == Halted(tm);
        var final := Store(halted, [DecToBcd(tm.second)], second);
        if second == Cut(0) {
          assert final == halted;
        } else {
          assert final == Image(tm);
        }
      }
    }
  }

  /** One attempt to set the clock. */
  datatype Attempt = Attempt(tm: Tm, first: Bus, second: Bus)

  function AfterAttempts(r: Registers, tries: seq<Attempt>): Registers {
    if tries == [] then r
    else
      var a := tries[|tries| - 1];
      AfterWrite(AfterAttempts(r, tries[..|tries| - 1]), a.tm, a.first, a.second)
  }

  /** Over any run of torn or complete writes, what is read is what stood there first or what
      one single attempt wanted to write. */
  lemma {:induction false} RunsNeverMix(r: Registers, tries: seq<Attempt>)
    requires forall i :: 0 <= i < |tries| ==> tries[i].tm.second < 60
    ensures var seen := Readable(AfterAttempts(r, tries));
            seen == None || seen == Readable(r)
            || exists i :: 0 <= i < |tries| && seen == Readable(Image(tries[i].tm))
  {
    if tries != [] {
      var k := |tries| - 1;
      var front, a := tries[..k], tries[k];
      RunsNeverMix(r, front);
      NoMixture(AfterAttempts(r, front), a.tm, a.first, a.second);
      assert forall i :: 0 <= i < k ==> front[i] == tries[i];
    }
  }

  // ---------- the driver ----------

  class DS1307RTC {
    /** The chip's registers, and whether the last exchange was acknowledged. */
    var chip: Registers
    var exists_: bool

    constructor (chip: Registers)
      ensures this.chip == chip && !exists_
    {
      this.chip, exists_ := chip, false;
    }

    /** Address register 0 and send data bytes; status 0 means acknowledged. */
    method Transmit(data: seq<Byte>, bus: Bus) returns (status: nat)
      requires |data| <= 7
      modifies this`chip
      ensures chip == Store(old(chip), data, bus)
      ensures status == 0 <==> bus.Acked?
    {
      var n := 0;
      while n < |data| && !(bus.Cut? && n >= bus.stored)
        invariant 0 <= n <= |data| && (bus.Cut? ==> n <= bus.stored)
        invariant chip == data[..n] + old(chip)[n..]
      {
        StoreOne(old(chip), data, n);
        chip := chip[n := data[n]];
        n := n + 1;
      }
      status := if bus.Cut? then 4 else 0;
    }

    method Write(tm: Tm, first: Bus, second: Bus) returns (ok: bool)
      modifies this
      ensures chip == AfterWrite(old(chip), tm, first, second)
      ensures ok == exists_ == (first.Acked? && second.Acked?)
    {
      var status := Transmit(Halted(tm), first);
      if status != 0 {
        exists_ := false;
        return false;
      }
      exists_ := true;
      status := Transmit([DecToBcd(tm.second)], second);
      if status != 0 {
        exists_ := false;
        return false;
      }
      exists_ := true;
      ok := true;
    }

    /** `acked`: the register address was acknowledged; `available`: bytes the chip delivered. */
    method Read(acked: bool, available: nat) returns (tm: Option<Tm>)
      modifies this`exists_
      ensures exists_ == acked
      ensures tm == if acked && available >= 7 then Readable(chip) else None
    {
      if !acked {
        exists_ := false;
        return None;
      }
      exists_ := true;
      if available < 7 {
        return None;
      }
      var fields := Fields(chip);
      if chip[0] >= 128 {
        return None;
      }
      tm := Some(fields);
    }

    method Set(t: nat, first: Bus, second: Bus) returns (ok: bool)
      requires t < TWO32
      modifies this
      ensures chip == AfterWrite(old(chip), BreakTime(t), first, second)
      ensures ok == (first.Acked? && second.Acked?)
    {
      var tm := BreakTimeLoop(t);
      BreakTimeIs(tm, t);
      ok := Write(tm, first, second);
    }

    /** 0 stands for a failed read. */
    method Get(acked: bool, available: nat) returns (t: nat)
      requires Readable(chip).Some? ==> Readable(chip).value.month <= 13
      modifies this`exists_
      ensures t == if acked && available >= 7 && Readable(chip).Some? then MakeTime(Readable(chip).value) else 0
    {
      var tm := Read(acked, available);
      if tm.None? {
        return 0;
      }
      t := MakeTimeLoop(tm.value);
    }
  }

  /** A complete set followed by a get, on the driver itself. */
  method SetThenGet(rtc: DS1307RTC, t: nat) returns (back: nat)
    requires t < TWO32
    modifies rtc
    ensures back == t <==> t >= 946684800
  {
    var ok := rtc.Set(t, Acked, Acked);
    HasDate(t);
    NoMixture(old(rtc.chip), BreakTime(t), Acked, Acked);
    GetAfterSet(t);
    back := rtc.Get(true, 7);
  }
}
