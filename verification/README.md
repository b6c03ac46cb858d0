# Verified model of the weather station's library code

The weather station carries its own copy of the Arduino support library for the ESP8266. This project models the
algorithms of that library on which the station depends and proves what they promise, for all inputs, runs and
interleavings. Each file is one module and follows one component; loops, fields and buffers that the original updates
in place are updated in place here as well, and every such method is proved against a function that says what it
computes.

| file | component |
|---|---|
| `StreamSearch.dfy` | the on-line matcher behind `findMulti`, `findUntil` and `find`, against naive search |
| `SpiClock.dfy` | the SPI clock divider search, its "last set" cache and the register layout |
| `Calendar.dfy` | `breakTime` and `makeTime` over all 32-bit times, with 32-bit truncation of every sum |
| `SystemClock.dfy` | the cache behind `hour(t)` and its siblings, and the clock driven by a wrapping millisecond counter |
| `TimeZones.dfy` | daylight-saving rules, cached transition points, conversion between UTC and local time |
| `RealTimeClock.dfy` | the DS1307 register file: BCD, the halt bit, and the two-part write |
| `SerialRing.dfy` | the transmit and receive rings shared with interrupt handlers |
| `LineRaster.dfy`, `CircleRaster.dfy`, `TriangleRaster.dfy` | Bresenham line, midpoint circle, incremental triangle fill |
| `BitCanvas.dfy` | one-bit canvases in four rotations, and the two-colour bitmap blit |
| `DisplayDriver.dfy` | the ILI9341 driver's window fills, byte by byte against the controller |
| `StringReplace.dfy` | `String::replace` and `lastIndexOf` on a NUL-terminated buffer |
| `Base64Codec.dfy` | base64 encoder and decoder, against section 4 of RFC 4648 |
| `QueryArgs.dfy` | query argument parsing and `urlDecode` |
| `Arithmetic.dfy` | products and quotients, for the other modules |

Conventions. Unsigned 32-bit arithmetic is written with `U32`, bytes as integers below 256 or as `bv8`, masks and
shifts with `bv8` or with division and remainder. What a caller cannot control (the counter behind `millis()`, what a
stream delivers and when, which bus transmission fails, when an interrupt comes) is a parameter of the model, and the
results hold for every value of it.

Some promises do not hold of the code as it stands. For each of them the model keeps the code's behaviour and proves
the exact condition:

- The "last set" cache of `setFrequency` is transparent except in one state, the one at boot with frequency 0
  (`CacheSpeaksUnset`; `UnsetCacheIsNotTransparent` makes the call that shows it).
- A run of `now()` alone never drifts exactly when no reading misses a turn of the millisecond counter, where 1000 turns
  at once do no harm because the 32-bit seconds wrap with them (`OnTimeIff`). Short of such 136 years, each reading must
  be less than 2^32 ms after the second boundary the one before left (`NoDrift`). Calls merely less than 2^32 ms apart
  are not enough (`GapJustBelow32BitsDrifts`); less than 2^32 - 999 ms apart they are (`CloseIsInReach`).
- The accessors behind the time cache are right exactly when the time is not the cached one or the cached field is right.
  This fails for time 0 before the first refresh (`Month`, `Day`, `WeekdayOf`), where the zeroed fields pass for the date
  of time 0, and after the six-argument `setTime` for the time that was cached (`HourAfterOverwrite`).
- The growing branch of `replace` counts from the left and works from the right. Both agree on every text exactly when
  the pattern neither overlaps itself nor ends in the beginning of the replacement (`GrowingIsRightIff`).
- The size that branch counts beforehand is the final length exactly when the pattern does not end in the beginning of
  the replacement (`CountedSizeIsRightIff`); exactly then the work never leaves the buffer (`RoomIff`). Otherwise a text
  is given for which it does (`Overrun`); the model stops there and reports it.
- A time written to the real-time clock comes back exactly from 2000-01-01 on (`GetAfterSet`). Two decimal digits end
  in 2099; the code's own digit functions carry on, and the property is proved to the end of 32-bit time.
- With length 0 the fast fills of the display driver draw nothing while the generic loops draw two pixels per line; they
  agree exactly when these are off the screen (`VLineAgreesIff`, `HLineAgreesIff`, `RectAgreesIff`).

## Model

| member | source | states |
|---|---|---|
| StreamSearch.NaiveFromMeaning | esp8266_sim/Stream.cpp:256-319 | the reference: the shortest prefix of the stream that some target ends, and the lowest-numbered target ending there, or -1 with everything read and no target anywhere |
| StreamSearch.AdvanceTarget | esp8266_sim/Stream.cpp:269-315 | for one byte: the target is found exactly when it ends the bytes read; otherwise its index is again the longest proper prefix that they end in |
| StreamSearch.WalkBack | esp8266_sim/Stream.cpp:285-314 | the fallback loop without a failure table lands on the longest proper prefix that still fits |
| StreamSearch.WalkStep | esp8266_sim/Stream.cpp:287-314 | one step of it: a shorter prefix is taken exactly when it fits, and then nothing longer does |
| StreamSearch.AdvanceAll | esp8266_sim/Stream.cpp:269-315 | over all targets: the lowest-numbered one that ends the bytes read, or every index correct for the longer prefix |
| StreamSearch.Stream.TimedRead | esp8266_sim/Stream.cpp:31-40 | the byte of the first poll that has one, logged as taken, when no poll before it ends the time limit or more after the start; -1 with nothing taken when there is no such poll |
| StreamSearch.DeliveryIff | esp8266_sim/Stream.cpp:31-40 | a poll delivers the byte exactly if it is the first with one and after no earlier poll the wrapping counter is `timeout` or more past the start |
| StreamSearch.Stream.FindMulti | esp8266_sim/Stream.cpp:256-319 | equals naive search: same target, and in every outcome exactly the bytes up to it taken, all of them for -1; zero-length targets match at once |
| StreamSearch.Stream.ReadToTarget | esp8266_sim/Stream.cpp:264-317 | the reading loop computes the naive outcome and takes exactly its bytes |
| StreamSearch.EmptyTargetWins | esp8266_sim/Stream.cpp:259-262 | a zero-length target is what naive search reports too, with nothing read |
| StreamSearch.TargetBeforeTerminator | esp8266_sim/Stream.cpp:113-123 | target 0 of two is reported exactly when it ends some prefix and the terminator ends no shorter one |
| StreamSearch.LoneTarget | esp8266_sim/Stream.cpp:102-119 | without a terminator the target is reported exactly when the stream contains it |
| StreamSearch.Stream.FindUntil | esp8266_sim/Stream.cpp:113-123 | true exactly when the target ends before the terminator does; taken are the bytes up to whichever came first, or all |
| StreamSearch.Stream.Find | esp8266_sim/Stream.cpp:93-105 | true exactly when the target occurs in what is delivered; taken are the bytes up to its end, or all |
| SpiClock.ValueInjective | esp8266_sim/SPI.cpp:25-34 | no two settings of the fields give the same word |
| SpiClock.FieldsOfWord | esp8266_sim/SPI.cpp:25-34 | L, H, N, Pre and EQU are bits 0-5, 6-11, 12-17, 18-30 and 31 of the word |
| SpiClock.FreqNested | esp8266_sim/SPI.cpp:126-128 | the frequency of (N, Pre) is a nested integer quotient |
| SpiClock.VariantsSuffice | esp8266_sim/SPI.cpp:169-177 | no prescaler below the frequency beats the second variant tried, unless the first one is exact |
| SpiClock.ClampedVariants | esp8266_sim/SPI.cpp:169-177 | the same through both ends of the clamp to 13 bits |
| SpiClock.VariantsBest | esp8266_sim/SPI.cpp:160-197 | after the variants of one N no prescaler for that N is better than what is kept |
| SpiClock.SearchToBest | esp8266_sim/SPI.cpp:157-203 | after the first n dividers nothing among them is better |
| SpiClock.SearchIsBest | esp8266_sim/SPI.cpp:130-211 | the register found is at most the frequency asked for, and none of the 63 x 8192 pairs is closer |
| SpiClock.SmallestN | esp8266_sim/SPI.cpp:157-203 | of the dividers that reach the frequency found, one with the smallest N is kept |
| SpiClock.FullSearchWord | esp8266_sim/SPI.cpp:130-211 | the word by its bits: 0x80000000 from 80 MHz, 0x7FFFF000 below 152 Hz, otherwise EQU and H zero, L half of N + 1, and no N and Pre give a frequency closer from below, nor the same one with a smaller N |
| SpiClock.SPIClass.BestVariant | esp8266_sim/SPI.cpp:162-197 | the inner loop computes the search function's step, the early exit on an exact hit included |
| SpiClock.SPIClass.BestRegister | esp8266_sim/SPI.cpp:154-203 | the outer loop computes the search function |
| SpiClock.SPIClass.ChooseDivider | esp8266_sim/SPI.cpp:144-207 | the word of the full search, which is the right one for the frequency bit by bit |
| SpiClock.SPIClass.SetFrequency | esp8266_sim/SPI.cpp:130-211 | in every state but one, SPI1CLK and the pin routing are those of a full search, and the bits of SPI1CLK name the best divider, the slowest or the undivided clock |
| SpiClock.SPIClass.SetClockDivider | esp8266_sim/SPI.cpp:213-220 | the register is written and the system clock routed exactly for the undivided setting |
| SpiClock.UnsetCacheIsNotTransparent | esp8266_sim/SPI.cpp:131-142 | in the one excepted state a call for 0 Hz leaves a register that the full search would not leave |
| SpiClock.ResetCanSpeakUnset | esp8266_sim/SPI.cpp:131-132 | that state is the one after reset with a zero register |
| Calendar.BreakTimeLoop | esp8266_sim/TimeLib.cpp:151-205 | the year and month loops give the date of the instant, for every 32-bit time: on the Gregorian calendar, that many seconds after 1970 by the closed formula, with its weekday |
| Calendar.YearLoop | esp8266_sim/TimeLib.cpp:170-178 | the year whose days enclose the day number |
| Calendar.MonthLoop | esp8266_sim/TimeLib.cpp:180-204 | the month, and the day left over, of a day of the year |
| Calendar.MakeTimeLoop | esp8266_sim/TimeLib.cpp:207-237 | the truncated sums give the seconds from 1970 to the fields by the closed formula, modulo 2^32 |
| Calendar.AddYears | esp8266_sim/TimeLib.cpp:215-221 | 365 days a year and the leap days one by one are the days of the years before |
| Calendar.AddMonths | esp8266_sim/TimeLib.cpp:223-231 | the loop adds the days of the months before |
| Calendar.MonthLengthIs | esp8266_sim/TimeLib.cpp:147-149 | the table has 30 days exactly for April, June, September and November, 28 or 29 for February by the Gregorian rule, and 31 otherwise |
| Calendar.DaysToMonthClosed | esp8266_sim/TimeLib.cpp:180-204 | days before each month by a formula without the table |
| Calendar.DaysToYearClosed | esp8266_sim/TimeLib.cpp:147-178 | days before each year by counting multiples of 4, 100 and 400, without a loop |
| Calendar.WeekdayNext | esp8266_sim/TimeLib.cpp:168 | 1 January 1970 is a Thursday and the weekdays follow one another |
| Calendar.DateMeaning | esp8266_sim/TimeLib.cpp:147-237 | fields are the date of an instant exactly when they are on the Gregorian calendar and, by those formulas, that many seconds after 1970, on its weekday |
| Calendar.DateExists | esp8266_sim/TimeLib.cpp:151-205 | every 32-bit time has a valid date |
| Calendar.DateUnique | esp8266_sim/TimeLib.cpp:147-237 | no two valid dates are the same instant |
| Calendar.BreakTimeIs | esp8266_sim/TimeLib.cpp:151-205 | whatever is a date of the instant, weekday included, is the one breakTime gives |
| Calendar.MakeAfterBreak | esp8266_sim/TimeLib.cpp:147-237 | makeTime undoes breakTime on every 32-bit time |
| Calendar.BreakAfterMake | esp8266_sim/TimeLib.cpp:147-237 | breakTime restores every valid date within 32 bits and sets its weekday |
| SystemClock.TimeCache.RefreshCache | esp8266_sim/TimeLib.cpp:42-47 | the cached fields are those of the cached time, up to the zeroed start |
| SystemClock.TimeCache.Hour | esp8266_sim/TimeLib.cpp:53-56 | right exactly for a time not cached or a right cached field; always right from a valid cache |
| SystemClock.TimeCache.HourFormat12 | esp8266_sim/TimeLib.cpp:62-70 | the hour on a dial of 1 to 12 |
| SystemClock.TimeCache.Month | esp8266_sim/TimeLib.cpp:128-131 | right exactly for a time not cached or a right cached field; from a valid cache exactly unless time 0 is asked for before any refresh |
| SystemClock.TimeCache.Day | esp8266_sim/TimeLib.cpp:110-113 | the same for the day of the month |
| SystemClock.TimeCache.WeekdayOf | esp8266_sim/TimeLib.cpp:119-122 | the same for the weekday |
| SystemClock.TimeCache.YearOfTime | esp8266_sim/TimeLib.cpp:137-140 | the same for the year, always right from a valid cache |
| SystemClock.TimeCache.OverwriteFields | esp8266_sim/TimeLib.cpp:291-305 | the six-argument setTime changes the cached fields but not the time they are cached for |
| SystemClock.HourAfterOverwrite | esp8266_sim/TimeLib.cpp:291-305 | after it the hour of the cached time is the one given, and every other time still answers rightly |
| SystemClock.YearForms | esp8266_sim/TimeLib.cpp:292-297 | full years from 1970 and two-digit years from 2000 are stored as meant |
| SystemClock.StatusTellsWhetherSet | esp8266_sim/TimeLib.cpp:254-326 | over any run of calls the status is timeNotSet exactly when no call has set the time |
| SystemClock.NeverUnset | esp8266_sim/TimeLib.cpp:254-326 | once left, timeNotSet never returns |
| SystemClock.TickExactIff | esp8266_sim/TimeLib.cpp:254-262 | the counted seconds are the true ones exactly when the reading is less than 2^32 ms past the anchor |
| SystemClock.TickAnchors | esp8266_sim/TimeLib.cpp:254-262 | one call advances the seconds by the whole ones and keeps the rest in prevMillis |
| SystemClock.TickOnTimeIff | esp8266_sim/TimeLib.cpp:254-262 | one more reading keeps the clock on time exactly when the counter turns it misses are a multiple of 1000 |
| SystemClock.OnTimeIff | esp8266_sim/TimeLib.cpp:254-277 | over any run of calls, counter wraparound included, the clock shows its start plus the whole seconds elapsed after every reading exactly when no reading misses turns, multiples of 1000 aside |
| SystemClock.NoDrift | esp8266_sim/TimeLib.cpp:254-277 | within 2^32 seconds, the clock is on time after every reading of a run exactly when each reading is less than 2^32 ms past the boundary the one before left |
| SystemClock.CloseIsInReach | esp8266_sim/TimeLib.cpp:254-262 | readings less than 2^32 - 999 ms apart satisfy that condition, whatever remainder is carried |
| SystemClock.GapJustBelow32BitsDrifts | esp8266_sim/TimeLib.cpp:256-258 | two readings less than 2^32 ms apart after which the clock is wrong |
| SystemClock.ShowsTime | esp8266_sim/TimeLib.cpp:254-326 | over any run of now, setTime, adjustTime and the sync calls, the clock shows the time it was last set to, by a caller or a reply, plus the adjustments and the whole seconds since, with every reading in reach |
| SystemClock.StepTells | esp8266_sim/TimeLib.cpp:254-326 | the same for each call |
| SystemClock.SetThenRead | esp8266_sim/TimeLib.cpp:279-289 | setTime restarts the counting from any state: after any readings in reach the clock shows the time set plus the whole seconds since |
| SystemClock.NowAsks | esp8266_sim/TimeLib.cpp:264-276 | a reply asked for sets the clock, counted from the moment of setting; without one the time stays and the next attempt is one interval away; a reply not asked for plays no part |
| SystemClock.NextAttempt | esp8266_sim/TimeLib.cpp:264-289 | over any run of now(), the next attempt is made exactly when `syncInterval` seconds have passed since the last one or since the time was set |
| SystemClock.NextAttemptAfterSet | esp8266_sim/TimeLib.cpp:264-289 | after setTime that is exactly 1000 * `syncInterval` milliseconds of true time |
| SystemClock.InstallAsks | esp8266_sim/TimeLib.cpp:317-321 | a provider is asked as soon as it is installed, and its reply sets the clock |
| SystemClock.IntervalFromNow | esp8266_sim/TimeLib.cpp:323-326 | a new interval counts from the time shown, which stays |
| SystemClock.SystemTime.CountSeconds | esp8266_sim/TimeLib.cpp:256-263 | the loop, with the counter read again in each turn, computes the tick of its last reading |
| SystemClock.SystemTime.NowCall | esp8266_sim/TimeLib.cpp:254-277 | now(): the tick, then the synchronisation that is due |
| SystemClock.SystemTime.SetTime | esp8266_sim/TimeLib.cpp:279-289 | the whole state after setTime |
| SystemClock.SystemTime.AdjustTime | esp8266_sim/TimeLib.cpp:307-310 | the seconds move by the adjustment, modulo 2^32, and nothing else changes |
| SystemClock.SystemTime.SetSyncProvider | esp8266_sim/TimeLib.cpp:317-321 | the whole state after a provider is installed and asked |
| SystemClock.SystemTime.SetSyncInterval | esp8266_sim/TimeLib.cpp:323-326 | the whole state after a new interval |
| SystemClock.SystemTime.TimeStatus | esp8266_sim/TimeLib.cpp:312-315 | the status after the clock is brought up to date |
| TimeZones.ToTimeMeaning | esp8266_sim/Timezone.cpp:156-182 | the instant of a rule has the weekday, month, hour and year asked for, in the w-th week or the final seven days, December included |
| TimeZones.ChangeDayMeaning | esp8266_sim/Timezone.cpp:156-182 | the same for the day number, without 32-bit limits |
| TimeZones.PointsSettled | esp8266_sim/Timezone.cpp:144-150 | both changes lie inside their year, clear of its ends, and days apart |
| TimeZones.TwoMonthsApart | weather_station_base/weather_station_base_class.cpp:138-139 | rules two months apart, like the station's, fire in the same order every year and days apart |
| TimeZones.EarlyInItsMonth | esp8266_sim/Timezone.cpp:144-150 | so do rules of different months when the first fires in one of its first three weeks |
| TimeZones.AlmanacGood | esp8266_sim/Timezone.cpp:42-150 | the years and their points meet the assumptions of the conversion proofs |
| TimeZones.RoundTrip | esp8266_sim/Timezone.cpp:42-108 | toUTC undoes toLocal at every instant outside the fold, across New Year and in both hemispheres; inside it gives the earlier instant |
| TimeZones.RoundTripLocal | esp8266_sim/Timezone.cpp:42-108 | toLocal undoes toUTC at every reading outside the spring gap |
| TimeZones.NeverInGap | esp8266_sim/Timezone.cpp:42-51 | no instant is shown as a reading of the spring gap |
| TimeZones.CollideOnlyInFold | esp8266_sim/Timezone.cpp:42-51 | two instants share a reading only as the two passes of the fold |
| TimeZones.ToLocalMeaning | esp8266_sim/Timezone.cpp:42-51 | local time is UTC plus 60 times the minutes of the rule whose change came last of all changes since 1970; daylight time begins at its local date less the standard minutes and ends at its local date less the daylight minutes |
| TimeZones.ToUTCMeaning | esp8266_sim/Timezone.cpp:99-108 | UTC is local time less 60 times the minutes of the rule whose local date came last |
| TimeZones.LastChange | esp8266_sim/Timezone.cpp:114-138 | comparing with the two changes of the same year tells, in both hemispheres, which change of any year came last |
| TimeZones.PointsFire | esp8266_sim/Timezone.cpp:144-150 | the four points of a year are the rules' local dates, on the local clock and, 60 times the other rule's minutes earlier, in UTC |
| TimeZones.PointsAreFresh | esp8266_sim/Timezone.cpp:144-150 | computed points pass the year test of the cache for their own year |
| TimeZones.Timezone.ToTimeT | esp8266_sim/Timezone.cpp:156-182 | the steps over 32-bit times compute the instant of the rule |
| TimeZones.Timezone.StepToWeekday | esp8266_sim/Timezone.cpp:179-181 | forward to the weekday and week, and back a week for "Last" |
| TimeZones.Timezone.CalcTimeChanges | esp8266_sim/Timezone.cpp:144-150 | the four fields are the rules' local dates in that year, and in UTC these less 60 times the other rule's minutes |
| TimeZones.Timezone.Refresh | esp8266_sim/Timezone.cpp:45 | after the year test the points are those of the year asked about |
| TimeZones.Timezone.UtcIsDST | esp8266_sim/Timezone.cpp:114-123 | daylight time by the freshly computed points, whatever was cached |
| TimeZones.Timezone.LocIsDST | esp8266_sim/Timezone.cpp:129-138 | the same for a local reading |
| TimeZones.Timezone.ToLocalCached | esp8266_sim/Timezone.cpp:42-51 | the result depends on rules and instant only, never on earlier conversions; it is UTC plus 60 times the minutes of the rule whose change came last |
| TimeZones.Timezone.ToUTCCached | esp8266_sim/Timezone.cpp:99-108 | the same in the other direction, by the rules' local dates |
| RealTimeClock.BcdInverse | weather_station_base/DS1307RTC.cpp:210-220 | the BCD functions are inverse exactly below 160, and small numbers leave the masked bits clear |
| RealTimeClock.BcdDigits | weather_station_base/DS1307RTC.cpp:210-220 | two decimal digits, the tens in the upper half of the byte |
| RealTimeClock.ImageShows | weather_station_base/DS1307RTC.cpp:105-151 | from 2000 to 2099 the registers written show, digit by digit, seconds, minutes, hours, weekday, day, month and the year from 2000, and no other registers do |
| RealTimeClock.ImageReadsBack | weather_station_base/DS1307RTC.cpp:64-151 | the registers written for a date are read back as that date, years before 2000 moved by 96 |
| RealTimeClock.GetAfterSet | weather_station_base/DS1307RTC.cpp:49-62 | what comes back is the time written exactly from 2000-01-01 on |
| RealTimeClock.NoMixture | weather_station_base/DS1307RTC.cpp:105-151 | wherever either transmission breaks off, a reader sees the old date, the new one or a refusal |
| RealTimeClock.RunsNeverMix | weather_station_base/DS1307RTC.cpp:64-151 | after any sequence of writes that break off anywhere, a reader sees one of the dates written whole, the first one, or a refusal |
| RealTimeClock.DS1307RTC.Write | weather_station_base/DS1307RTC.cpp:105-151 | the chip afterwards for every outcome of both transmissions, and success exactly when both were acknowledged |
| RealTimeClock.DS1307RTC.Read | weather_station_base/DS1307RTC.cpp:64-103 | the date in the registers, or nothing on a bus error, a short answer or a halted clock |
| RealTimeClock.DS1307RTC.Set | weather_station_base/DS1307RTC.cpp:56-62 | the registers of the broken-down time |
| RealTimeClock.DS1307RTC.Get | weather_station_base/DS1307RTC.cpp:49-54 | the instant of what is read, or 0 |
| RealTimeClock.SetThenGet | weather_station_base/DS1307RTC.cpp:49-62 | set followed by get returns the time exactly from 2000-01-01 on |
| SerialRing.PushQueued | esp8266_sim/HardwareSerial.cpp:242-245 | publishing the new head appends one byte to the queue, wrapped or not |
| SerialRing.PopQueued | esp8266_sim/HardwareSerial.cpp:86-88 | advancing the tail removes the oldest byte |
| SerialRing.StepKeepsInv | esp8266_sim/HardwareSerial.cpp:81-248 | every step of writer, interrupt or hardware keeps: sent plus queued is accepted, UDRIE is set exactly for a non-empty queue, and the bytes sent are those out on the line plus the ones in flight, of which there are none when TXC is set |
| SerialRing.AnyInterleaving | esp8266_sim/HardwareSerial.cpp:81-248 | so does every interleaving; queued plus free is the size less one |
| SerialRing.FromReset | esp8266_sim/HardwareSerial.cpp:81-248 | in every state reached from reset the bytes sent and queued are the bytes written, in order |
| SerialRing.FlushedMeansOut | esp8266_sim/HardwareSerial.cpp:193-211 | when flush may return, at once before any write or from its loop, every byte accepted has left on the line, in order, and the line is idle |
| SerialRing.FlushNeverStuck | esp8266_sim/HardwareSerial.cpp:200-208 | while flush waits, the hardware, the interrupt or its own poll has a step |
| SerialRing.FlushReturnsIff | esp8266_sim/HardwareSerial.cpp:193-211 | it returns after exactly the steps that queue and registers have left, in whatever order these come |
| SerialRing.NoDeadlock | esp8266_sim/HardwareSerial.cpp:229-240 | a writer that waits for room always has a step that leads on, interrupts enabled or not |
| SerialRing.HardwareSerial.TxUdrEmptyIrq | esp8266_sim/HardwareSerial.cpp:81-99 | the handler is the machine's handler step |
| SerialRing.HardwareSerial.AvailableForWrite | esp8266_sim/HardwareSerial.cpp:178-191 | the free slots: with the queue they make the size less one |
| SerialRing.HardwareSerial.LookAtRing | esp8266_sim/HardwareSerial.cpp:213-227 | the short cut past an empty ring, or the next head position |
| SerialRing.HardwareSerial.WaitForRoom | esp8266_sim/HardwareSerial.cpp:229-240 | polling with interrupts off keeps the invariant and ends with room, unless the hardware never gets ready |
| SerialRing.HardwareSerial.PublishByte | esp8266_sim/HardwareSerial.cpp:242-245 | the byte is published and UDRIE set in one step |
| SerialRing.HardwareSerial.Write | esp8266_sim/HardwareSerial.cpp:213-248 | a whole write with interrupts off accepts exactly its byte and keeps the invariant, or accepts nothing and never saw the hardware ready |
| SerialRing.HardwareSerial.Available | esp8266_sim/HardwareSerial.cpp:152-155 | the number of received bytes waiting |
| SerialRing.HardwareSerial.Peek | esp8266_sim/HardwareSerial.cpp:157-164 | the oldest received byte, kept, or -1 |
| SerialRing.HardwareSerial.Read | esp8266_sim/HardwareSerial.cpp:166-176 | the oldest received byte, removed, or -1 |
| SerialRing.HardwareSerial.RxCompleteIrq | esp8266_sim/HardwareSerial_private.h:101-121 | a byte is appended unless its parity is wrong or the ring is full |
| LineRaster.MinorIsNearest | esp8266_sim/Adafruit_GFX.cpp:209-233 | the minor coordinate at each step is the nearest to the ideal line, the smaller one at a tie, from 0 to dy without jumps |
| LineRaster.LineMeaning | esp8266_sim/Adafruit_GFX.cpp:196-234 | max(dx, dy) + 1 pixels, both endpoints, each touching the next, each within half a pixel of the line |
| LineRaster.OnePerStep | esp8266_sim/Adafruit_GFX.cpp:196-234 | one pixel for each step of the major axis |
| LineRaster.SameEitherWay | esp8266_sim/Adafruit_GFX.cpp:196-234 | exchanging the endpoints plots the same pixels |
| LineRaster.Gfx.DrawLine | esp8266_sim/Adafruit_GFX.cpp:196-234 | plots those pixels, for any two endpoints |
| LineRaster.Gfx.PlotGentle | esp8266_sim/Adafruit_GFX.cpp:209-233 | the error-term loop plots them from the left end, all its variables in 16 bits |
| LineRaster.ColumnsCover | esp8266_sim/Adafruit_GFX.cpp:257-263 | the generic rectangle fill plots exactly the points of the rectangle |
| LineRaster.VLineCovers | esp8266_sim/Adafruit_GFX.cpp:245-249 | the generic vertical line plots exactly its points |
| LineRaster.HLineCovers | esp8266_sim/Adafruit_GFX.cpp:251-255 | the generic horizontal line plots exactly its points |
| LineRaster.Gfx.FillRect | esp8266_sim/Adafruit_GFX.cpp:257-263 | one vertical line for each column |
| CircleRaster.CircleStep | esp8266_sim/Adafruit_GFX.cpp:103-110 | f = (x+1)^2 + y^2 - y - r^2, ddF_x = 2x+1 and ddF_y = -2y are kept, and so is -y <= x^2 + y^2 - r^2 <= y |
| CircleRaster.HeightUnique | esp8266_sim/Adafruit_GFX.cpp:102-119 | that bound, with its upper end open, leaves one height for each x |
| CircleRaster.DrawCircle | esp8266_sim/Adafruit_GFX.cpp:88-120 | the four axis points and the eight reflections of one octant point for each x = 1, 2, ... until x reaches the height |
| CircleRaster.CircleIsRound | esp8266_sim/Adafruit_GFX.cpp:88-120 | every plotted point is within its larger offset of r^2 in squared distance |
| CircleRaster.CircleSymmetric | esp8266_sim/Adafruit_GFX.cpp:88-120 | the plotted set is closed under the reflections that generate all eight |
| TriangleRaster.CrossingInside | esp8266_sim/Adafruit_GFX.cpp:350-378 | the truncated crossing of a row with an edge stays between the edge's ends and meets them |
| TriangleRaster.CrossingRounds | esp8266_sim/Adafruit_GFX.cpp:350-378 | the crossing is less than a pixel from the ideal edge and no pixel lies between the two |
| TriangleRaster.EdgeStep | esp8266_sim/Adafruit_GFX.cpp:350-378 | the running sums give that crossing, with no division by zero |
| TriangleRaster.SpansMeaning | esp8266_sim/Adafruit_GFX.cpp:304-379 | one span for each row from the least to the greatest y, inside the vertices' x range, covering all three vertices |
| TriangleRaster.SpanIsTriangle | esp8266_sim/Adafruit_GFX.cpp:304-379 | no pixel of the ideal triangle is missed, and none is filled a whole pixel to the side of it |
| TriangleRaster.Canvas.FillTriangle | esp8266_sim/Adafruit_GFX.cpp:304-379 | draws those spans for every vertex order, flat and degenerate triangles included |
| TriangleRaster.Canvas.FillUpper | esp8266_sim/Adafruit_GFX.cpp:347-361 | the upper loop's spans, its sums within 32 bits |
| TriangleRaster.Canvas.FillLower | esp8266_sim/Adafruit_GFX.cpp:365-378 | the lower loop's spans, its sums within 32 bits |
| TriangleRaster.TrianglePixels | esp8266_sim/Adafruit_GFX.cpp:304-379 | in pixels: all three vertices are filled and nothing outside their bounding box |
| BitCanvas.OneBitChanges | esp8266_sim/Adafruit_GFX.cpp:977-1008 | setting or clearing through the mask tables changes that bit only |
| BitCanvas.RotationInjective | esp8266_sim/Adafruit_GFX.cpp:977-1008 | in each rotation points on the screen have bits in the buffer, different points different ones |
| BitCanvas.QuarterTurn | esp8266_sim/Adafruit_GFX.cpp:987-1002 | rotation 0 is the canvas as made, and each further rotation shows the picture turned by the same quarter turn |
| BitCanvas.PlotChangesOnePixel | esp8266_sim/Adafruit_GFX.cpp:977-1008 | a plotted pixel takes its colour and every other pixel keeps its own |
| BitCanvas.GFXcanvas1.DrawPixel | esp8266_sim/Adafruit_GFX.cpp:977-1008 | the whole buffer after one pixel, and no change off the screen |
| BitCanvas.GFXcanvas1.SetRotation | esp8266_sim/Adafruit_GFX.cpp:650-664 | rotation modulo four, with width and height to match |
| BitCanvas.GFXcanvas1.NextByte | esp8266_sim/Adafruit_GFX.cpp:443-446 | the shifting byte always holds the bitmap byte shifted by i mod 8, so its top bit is the pixel |
| BitCanvas.GFXcanvas1.DrawBitmap | esp8266_sim/Adafruit_GFX.cpp:435-449 | every point under the bitmap has the ink's colour, every other keeps its own |
| BitCanvas.BlitOne | esp8266_sim/Adafruit_GFX.cpp:440-448 | one pixel of the blit extends what is already shown |
| BitCanvas.GFXcanvas1.FillScreen | esp8266_sim/Adafruit_GFX.cpp:1010-1015 | every pixel takes the colour |
| BitCanvas.CopyPicture | esp8266_sim/Adafruit_GFX.cpp:435-449 | blitting one canvas's buffer at rotation 0 reproduces its picture pixel for pixel |
| DisplayDriver.PaintedAt | esp8266_sim/Adafruit_ILI9341.cpp:427-452 | plotting points one by one, each clipped, colours those on the screen and leaves the rest |
| DisplayDriver.PaintedIs | esp8266_sim/Adafruit_ILI9341.cpp:427-452 | and that determines the frame |
| DisplayDriver.StoreStep | esp8266_sim/Adafruit_ILI9341.cpp:547-552 | one colour sent extends the part of the window that is filled, row after row |
| DisplayDriver.Ili9341.SetAddrWindow | esp8266_sim/Adafruit_ILI9341.cpp:385-401 | the eleven bytes open exactly this window, whatever the controller was doing |
| DisplayDriver.Ili9341.DrawPixel | esp8266_sim/Adafruit_ILI9341.cpp:427-452 | one clipped pixel |
| DisplayDriver.Ili9341.DrawFastVLine | esp8266_sim/Adafruit_ILI9341.cpp:455-489 | leaves the frame memory that the generic line leaves with each pixel clipped |
| DisplayDriver.Ili9341.DrawFastHLine | esp8266_sim/Adafruit_ILI9341.cpp:492-519 | the same for horizontal lines |
| DisplayDriver.Ili9341.FillRect | esp8266_sim/Adafruit_ILI9341.cpp:526-560 | the same for the generic column by column fill |
| DisplayDriver.VLineAgreesIff | esp8266_sim/Adafruit_ILI9341.cpp:455-489 | with length 0, which the driver skips, both agree exactly off the screen |
| DisplayDriver.HLineAgreesIff | esp8266_sim/Adafruit_ILI9341.cpp:492-519 | the same for horizontal lines |
| DisplayDriver.RectAgreesIff | esp8266_sim/Adafruit_ILI9341.cpp:526-560 | the same for rectangles of height 0 |
| StringReplace.SubstMeaning | esp8266_sim/WString.cpp:656-697 | substitution is: cut at the leftmost occurrences, and join the pieces with the replacement |
| StringReplace.PiecesUnique | esp8266_sim/WString.cpp:656-697 | there is only one leftmost way to cut |
| StringReplace.GrowingIsRightIff | esp8266_sim/WString.cpp:679-696 | the growing branch substitutes on every text exactly for clean patterns |
| StringReplace.CleanAgrees | esp8266_sim/WString.cpp:679-696 | for clean patterns, going backward is the leftmost substitution |
| StringReplace.CountedSizeIsRightIff | esp8266_sim/WString.cpp:680-686 | the size counted beforehand is the final length on every text exactly when the pattern does not end in the beginning of the replacement |
| StringReplace.ClearSizesAgree | esp8266_sim/WString.cpp:680-695 | then it is so text by text, for patterns that overlap themselves too |
| StringReplace.LeftOfLast | esp8266_sim/WString.cpp:680-695 | cutting a text at its last occurrence takes one from the count of the first loop |
| StringReplace.RoomIff | esp8266_sim/WString.cpp:686-695 | exactly then the work stays in the buffer, for every text and capacity |
| StringReplace.Overrun | esp8266_sim/WString.cpp:686-695 | otherwise a text that fills its buffer overruns it |
| StringReplace.StraddleShows | esp8266_sim/WString.cpp:687-695 | a pattern ending in the beginning of its replacement is replaced once too often, and the result is longer than counted |
| StringReplace.OverlapShows | esp8266_sim/WString.cpp:687-695 | a pattern overlapping itself is replaced in the wrong place |
| StringReplace.ScanStep | esp8266_sim/WString.cpp:669-677 | one turn of the shrinking loop writes up to the end of the occurrence at most and keeps the result |
| StringReplace.ArduinoString.StrStr | esp8266_sim/WString.cpp:663-681 | the first occurrence from a position up to the terminator |
| StringReplace.ArduinoString.LastIndexOf | esp8266_sim/WString.cpp:614-625 | the greatest start no later than the index given |
| StringReplace.ArduinoString.ReplaceEqual | esp8266_sim/WString.cpp:662-666 | equal lengths: the leftmost substitution, in place |
| StringReplace.ArduinoString.ReplaceShrink | esp8266_sim/WString.cpp:667-678 | shorter replacement: the leftmost substitution, the write cursor never past the read cursor |
| StringReplace.ArduinoString.SizeNeeded | esp8266_sim/WString.cpp:680-684 | the counted size is the length of the leftmost substitution |
| StringReplace.ArduinoString.InsertAt | esp8266_sim/WString.cpp:689-693 | one turn of the growing loop replaces that occurrence and keeps the terminator |
| StringReplace.ArduinoString.WorkBackward | esp8266_sim/WString.cpp:687-695 | the growing loop computes the backward replacement, clean pattern or not, or reports exactly when that does not fit the buffer |
| StringReplace.ArduinoString.Replace | esp8266_sim/WString.cpp:656-697 | all branches and all arguments: substitution for replacements no longer than the pattern and for clean patterns; an overrun exactly without room, and never for patterns clear of the replacement |
| Base64Codec.AlphabetInverse | simple_web_server/base64.cpp:4-12 | alphabet and positions in it are inverse |
| Base64Codec.RfcLength | simple_web_server/base64.cpp:14-55 | four characters for every three bytes begun |
| Base64Codec.SixthIs | simple_web_server/base64.cpp:24-27 | the encoder's shifts are the 6-bit numbers of the 24-bit group |
| Base64Codec.ThirdIs | simple_web_server/base64.cpp:71-73 | the decoder's shifts are the bytes of the 24-bit group |
| Base64Codec.DecodeEncode | simple_web_server/base64.cpp:14-96 | decoding undoes encoding, for every byte string |
| Base64Codec.EncodingIsCanonical | simple_web_server/base64.cpp:14-55 | every encoding is canonical |
| Base64Codec.EncodeDecodeIff | simple_web_server/base64.cpp:14-96 | encoding undoes decoding exactly on canonical texts |
| Base64Codec.MergeIs | simple_web_server/base64.cpp:82-92 | the bytes that are appended do not depend on leftover cells, which hold 255 |
| Base64Codec.Encode | simple_web_server/base64.cpp:14-55 | the loops over three- and four-cell buffers give the encoding of RFC 4648 |
| Base64Codec.EncodeRest | simple_web_server/base64.cpp:35-51 | the last one or two bytes, padded |
| Base64Codec.Find | simple_web_server/base64.cpp:68-69 | the position in the alphabet, 255 for anything else |
| Base64Codec.Decode | simple_web_server/base64.cpp:57-96 | the bytes of the characters before the first one outside the alphabet |
| Base64Codec.DecodeRest | simple_web_server/base64.cpp:81-93 | the last one to three characters |
| QueryArgs.IndexOf | esp8266_sim/WString.cpp:572-578 | the first position of a character not before the index given |
| QueryArgs.UrlDecode | esp8266_sim/Parsing.cpp:553-582 | the loop computes the decoding that the five lemmas below describe, malformed escapes included |
| QueryArgs.DecodeInverts | esp8266_sim/Parsing.cpp:553-582 | decoding undoes percent-encoding, whichever way each character was written, with digits from the tables 0-9A-F and 0-9a-f in any mix |
| QueryArgs.DecodePrefix | esp8266_sim/Parsing.cpp:553-582 | the same for an encoding that any text follows |
| QueryArgs.EscapeIs | esp8266_sim/Parsing.cpp:565-568 | two hex digits give their character; a bad second character the value of the first digit; a bad first one NUL |
| QueryArgs.BadEscape | esp8266_sim/Parsing.cpp:563-569 | a bad escape anywhere in a text decodes so and uses up both characters |
| QueryArgs.BarePercent | esp8266_sim/Parsing.cpp:563-578 | a percent sign with less than two characters behind it stands for itself |
| QueryArgs.WellFormedIff | esp8266_sim/Parsing.cpp:553-582 | the encodings are exactly the texts in which two hex digits follow every percent sign |
| QueryArgs.SplitMeaning | esp8266_sim/Parsing.cpp:251-323 | the pieces have no separator and, joined by it, are the text |
| QueryArgs.SplitUnique | esp8266_sim/Parsing.cpp:251-323 | no other pieces do that |
| QueryArgs.ParseNext | esp8266_sim/Parsing.cpp:280-317 | one turn of the second loop: there is a slot for the piece, and after the last piece all arguments are stored |
| QueryArgs.ESP8266WebServer.ParseArguments | esp8266_sim/Parsing.cpp:251-323 | one slot for each piece, and stored in them the arguments of the pieces that have an equals sign |
| QueryArgs.ESP8266WebServer.FillArgs | esp8266_sim/Parsing.cpp:278-318 | the guard on the count cuts nothing off, and the scan ends |
| QueryArgs.ESP8266WebServer.ParseArg | esp8266_sim/Parsing.cpp:301-303 | key before the first equals sign, decoded value after it |
| QueryArgs.ParseBack | esp8266_sim/Parsing.cpp:251-323 | the fields of a form, encoded with table digits and joined, are parsed back to the keys and values sent |

## Left out

- Wi-Fi, TCP, UDP, TLS and NTP wrappers: calls into an SDK whose code is not in the repository.
- ArduinoJson, file system, configuration file, web handlers and page templates: only easy members would remain.
- Multipart upload parsing: socket timing and a boundary buffer without a terminator leave its intent unclear.
- `getTextBounds`: it does not agree with `write` on the last line's width and on empty glyphs, so there is nothing to prove.
- Floating point, font tables, GPIO and backlight code, simulator stubs, `writePattern` and register busy-waits.
- Failure of `malloc` and `realloc`: allocation succeeds in the model.
- `GFXcanvas16`, `drawXBitmap`, rounded rectangles, filled circles and text: easy once lines and canvases are done.
- SpiClock.SPIClass.SetClockDivider: of the pin multiplexer only the bit that routes the system clock is modelled.
- SystemClock.NextAttempt: while the seconds stay below 2^32, where the comparison of times would wrap.
- SystemClock.TimeCache.Hour: minute, second and the forms without an argument are not repeated.
- TimeZones.RoundTrip: covers 2 January 1971 to the end of 2104, for rules that fire clear of the year's ends and at least three days apart, in the same order every year, with daylight time 0 to 24 hours ahead of standard time.
- TimeZones.ToLocalMeaning: for the same rules and times.
- TimeZones.Timezone.ToLocalCached: years 1971 to 2105; before the first computation the four fields hold arbitrary values, of which the model asks only that they are not of the year asked about.
- TimeZones.Timezone.WeekdayOf: year and weekday are computed by breakTime directly, not through the shared cache of the clock module.
- RealTimeClock.DS1307RTC.Get: between set and get the chip does not tick.
- RealTimeClock.DS1307RTC.Transmit: a transmission that breaks off leaves a prefix of its bytes in the registers.
- SerialRing.HardwareSerial.PublishByte: publishing the head and setting UDRIE is one step, as the queue claim needs.
- SerialRing.HardwareSerial.WaitForRoom: with interrupts on, waiting is a state of the step machine rather than a loop.
- LineRaster.Gfx.DrawLine: coordinates for which the 16-bit variables do not overflow.
- CircleRaster.DrawCircle: likewise, with the radius at most 16383.
- TriangleRaster.Canvas.FillTriangle: likewise, with coordinates small enough for the sums to stay in 32 bits.
- BitCanvas.CopyPicture: for two different canvases of the same size.
- DisplayDriver.Ili9341.DrawFastVLine: where y + h - 1 exceeds 32767 it is compared with the line of unbounded coordinates, since the 16-bit generic line itself overflows there; the same goes for DrawFastHLine and FillRect.
- DisplayDriver.Ili9341.FillRect: negative coordinates and lengths, which the driver clips only roughly; the controller's rotation register and the SPI transactions around the bytes.
- StringReplace.ArduinoString.Replace: pattern and replacement are not the string itself, texts hold no NUL, and lengths stay below 2^31; what the code does after it has left its buffer is undefined, and the model stops before the turn that would.
- StringReplace.ArduinoString.CopyDown: memcpy and strcpy onto overlapping memory are taken to copy upwards.
- Base64Codec.Encode: masks and shifts of bytes are written with division and remainder.
- QueryArgs.UrlDecode: a bad escape decodes to NUL or to one hex digit, as strtol gives it; what later String operations make of an embedded NUL is not modelled.
- QueryArgs.IndexOf: texts hold no NUL, at which strchr would stop.
- QueryArgs.ESP8266WebServer.ParseArguments: keys are not decoded by the source, and the fixed `RequestArgument` array is a Dafny array of pairs.
