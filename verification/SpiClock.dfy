/** The clock-divider search of SPI.cpp: setFrequency, setClockDivider and ClkRegToFreq. */
module SpiClock {
  import opened Arithmetic

  const SYSTEM_CLOCK: nat := 80_000_000
  const SYSTEM_CLOCK_REGISTER: nat := 0x8000_0000
  const MAX_PRE: nat := 8191
  const MAX_N: nat := 63

  /** The bit-field view of the clock register; regH stays zero in every register built here. */
  datatype ClkReg = ClkReg(regL: nat, regH: nat, regN: nat, regPre: nat, regEQU: nat) {
    predicate Fits() {
      regL < 64 && regH < 64 && regN < 64 && regPre < 8192 && regEQU < 2
    }

    /** The 32-bit value of the union. */
    function Value(): (v: nat)
      requires Fits()
      ensures v < 0x1_0000_0000
      ensures v == SYSTEM_CLOCK_REGISTER ==> regEQU == 1
    {
      regL + 64 * regH + 4096 * regN + 262144 * regPre + 0x8000_0000 * regEQU
    }
  }

  /** Writing the fields and reading the word lose nothing. */
  lemma ValueInjective(a: ClkReg, b: ClkReg)
    requires a.Fits() && b.Fits() && a.Value() == b.Value()
    ensures a == b
  {
    assert a.regEQU == b.regEQU;
    assert a.regPre == b.regPre;
    assert a.regN == b.regN;
  }

  /** The fields by their bits: L in 0-5, H in 6-11, N in 12-17, Pre in 18-30, EQU in 31. */
  lemma FieldsOfWord(r: ClkReg)
    requires r.Fits()
    ensures var w := r.Value();
            && w % 64 == r.regL && w / 64 % 64 == r.regH && w / 4096 % 64 == r.regN
            && w / 262144 % 8192 == r.regPre && w / 0x8000_0000 == r.regEQU
  {
    var w := r.Value();
    var w6 := r.regH + 64 * r.regN + 4096 * r.regPre + 0x200_0000 * r.regEQU;
    var w12 := r.regN + 64 * r.regPre + 0x8_0000 * r.regEQU;
    var w18 := r.regPre + 8192 * r.regEQU;
    DivMod(w, 64, w6, r.regL);
    DivMod(w6, 64, w12, r.regH);
    DivMod(w12, 64, w18, r.regN);
    DivMod(w18, 8192, r.regEQU, r.regPre);
    DivMod(w, 4096, w12, r.regL + 64 * r.regH);
    DivMod(w, 262144, w18, r.regL + 64 * r.regH + 4096 * r.regN);
    DivMod(w, 0x8000_0000, r.regEQU, r.regL + 64 * r.regH + 4096 * r.regN + 262144 * r.regPre);
  }

  const MIN_REG := ClkReg(0, 0, 63, 8191, 0)

  /** ClkRegToFreq. */
  function Freq(n: nat, pre: nat): nat {
    SYSTEM_CLOCK / ((pre + 1) * (n + 1))
  }

  // ---------- what the search must find ----------

  ghost predicate InRange(n: int, pre: int) {
    1 <= n <= MAX_N && 0 <= pre <= MAX_PRE
  }

  /** `(n, pre)` is the best divider for `freq`: not above it, and no divider in the whole space
      comes closer from below. */
  ghost predicate IsBest(freq: nat, n: nat, pre: nat) {
    && InRange(n, pre)
    && Freq(n, pre) <= freq
    && forall m: nat, p: nat :: InRange(m, p) && Freq(m, p) <= freq ==> Freq(m, p) <= Freq(n, pre)
  }

  // ---------- arithmetic ----------

  lemma FloorBounds(a: nat, b: nat)
    requires b > 0
    ensures b * (a / b) <= a < b * (a / b) + b
  {
  }

  lemma FloorUnique(a: nat, b: nat, q: nat)
    requires b > 0 && b * q <= a < b * q + b
    ensures a / b == q
  {
    DivMod(a, b, q, a - b * q);
  }

  /** The nested-floor law: dividing twice is dividing by the product. */
  lemma NestedFloor(a: nat, b: nat, c: nat)
    requires b > 0 && c > 0
    ensures (b * c) > 0 && a / (b * c) == (a / b) / c
  {
    var q := a / b;
    var r := q / c;
    FloorBounds(a, b);
    FloorBounds(q, c);
    MulMono(b, 1, c);
    Nested(a, b, c, q, r);
    FloorUnique(a, b * c, r);
  }

  lemma Nested(a: nat, b: nat, c: nat, q: nat, r: nat)
    requires b * q <= a < b * q + b && c * r <= q < c * r + c
    ensures (b * c) * r <= a < (b * c) * r + b * c
  {
    MulMono(b, c * r, q);
    MulMono(b, q + 1, c * r + c);
    Associate(b, c, r);
  }

  lemma Associate(b: int, c: int, r: int)
    ensures b * (c * r) == (b * c) * r && b * (c * r + c) == (b * c) * r + b * c
  {
  }

  lemma DivAntitone(a: nat, b: nat, c: nat)
    requires 0 < b <= c
    ensures a / c <= a / b
  {
    FloorBounds(a, b);
    FloorBounds(a, c);
    if a / c > a / b {
      MulMono(c, a / b + 1, a / c);
      MulMono(a / b + 1, b, c);
      assert false;
    }
  }

  lemma FreqNested(n: nat, pre: nat)
    ensures Freq(n, pre) == (SYSTEM_CLOCK / (n + 1)) / (pre + 1)
  {
    NestedFloor(SYSTEM_CLOCK, n + 1, pre + 1);
  }

  // ---------- the four prescaler variants of one N ----------

  /** The prescaler tried for variant `v` (-1..2), clamped to the 13-bit field. */
  function Variant(freq: nat, n: nat, v: int): (pre: nat)
    requires freq > 0
    ensures pre <= MAX_PRE
  {
    var calPre := (SYSTEM_CLOCK / (n + 1)) / freq - 1 + v;
    if calPre > MAX_PRE then MAX_PRE else if calPre <= 0 then 0 else calPre
  }

  /** Among all prescalers of one N, the best one not above `freq` is variant 0 when that is an
      exact match and variant 1 otherwise; when variant 1 is too fast, every prescaler is. */
  lemma VariantsSuffice(freq: nat, n: nat, pre: nat)
    requires freq > 0 && pre <= MAX_PRE && Freq(n, pre) <= freq
    ensures var p0 := Variant(freq, n, 0);
            var p1 := Variant(freq, n, 1);
            Freq(n, p0) == freq || (Freq(n, p1) <= freq && Freq(n, pre) <= Freq(n, p1))
  {
    var a := SYSTEM_CLOCK / (n + 1);
    FreqNested(n, pre);
    FreqNested(n, Variant(freq, n, 0));
    FreqNested(n, Variant(freq, n, 1));
    ClampedVariants(a, freq, a / freq, pre);
  }

  /** The same on quotients: `q` is the exact ratio, the divisor is the prescaler plus one. */
  lemma ClampedVariants(a: nat, freq: nat, q: nat, pre: nat)
    requires freq > 0 && q == a / freq && pre <= MAX_PRE && a / (pre + 1) <= freq
    ensures var d0 := if q > MAX_PRE + 1 then MAX_PRE + 1 else if q == 0 then 1 else q;
            var d1 := if q > MAX_PRE then MAX_PRE + 1 else q + 1;
            a / d0 == freq || (a / d1 <= freq && a / (pre + 1) <= a / d1)
  {
    if q > MAX_PRE {
      AtLeastUpTo(a, freq, q, MAX_PRE + 1);
      DivAntitone(a, pre + 1, MAX_PRE + 1);
    } else {
      FloorBounds(a, freq);
      TooSlowPast(a, freq, q + 1);
      if pre < q {
        AtLeastUpTo(a, freq, q, q);
        DivAntitone(a, pre + 1, q);
      } else {
        DivAntitone(a, q + 1, pre + 1);
      }
    }
  }

  lemma TooSlowPast(a: nat, freq: nat, d: nat)
    requires freq > 0 && d > 0 && a < freq * d
    ensures a / d < freq
  {
    FloorBounds(a, d);
    if a / d >= freq {
      MulMono(d, freq, a / d);
      assert false;
    }
  }

  lemma AtLeastUpTo(a: nat, freq: nat, q: nat, d: nat)
    requires freq > 0 && 0 < d <= q && q == a / freq
    ensures a / d >= freq
  {
    FloorBounds(a, freq);
    FloorBounds(a, d);
    MulMono(freq, d, q);
    if a / d < freq {
      MulMono(d, a / d + 1, freq);
      assert false;
    }
  }

  // ---------- the search as a function ----------

  /** The best register so far and its frequency; `exact` once a perfect match ends the search. */
  datatype Search = Search(reg: ClkReg, best: nat, exact: bool)

  function Candidate(freq: nat, n: nat, v: int): (r: ClkReg)
    requires freq > 0 && n <= MAX_N
    ensures r.Fits()
  {
    ClkReg((n + 1) / 2, 0, n, Variant(freq, n, v), 0)
  }

  /** One candidate of frequency `f`: exact matches end the search, closer ones from below
      replace the best. */
  function Try(freq: nat, reg: ClkReg, f: nat, s: Search): Search {
    if s.exact then s
    else if f == freq then Search(reg, s.best, true)
    else if s.best < f < freq then Search(reg, f, false)
    else s
  }

  /** The variants `v`..2 of one N, in loop order. */
  function TryVariants(freq: nat, n: nat, v: int, s: Search): Search
    requires freq > 0 && n <= MAX_N && -1 <= v <= 3
    decreases freq, 3 - v
  {
    if v == 3 then s
    else
      var reg := Candidate(freq, n, v);
      TryVariants(freq, n, v + 1, Try(freq, reg, Freq(n, reg.regPre), s))
  }

  /** All of N = 1..n, in loop order. */
  function SearchTo(freq: nat, n: nat): Search
    requires freq > 0 && n <= MAX_N
    decreases freq, n
  {
    if n == 0 then Search(ClkReg(0, 0, 0, 0, 0), 0, false)
    else TryVariants(freq, n, -1, SearchTo(freq, n - 1))
  }

  ghost predicate Achieves(reg: ClkReg, f: nat) {
    InRange(reg.regN, reg.regPre) && Freq(reg.regN, reg.regPre) == f
  }

  /** What a search has established: its register is usable and reaches what is claimed for it. */
  ghost predicate Sound(freq: nat, s: Search) {
    && s.reg.Fits() && s.reg.regEQU == 0
    && (if s.exact then Achieves(s.reg, freq)
        else s.best < freq && (s.best > 0 ==> Achieves(s.reg, s.best)))
  }

  /** `f` gives no reason to reject the outcome `s` as the best for `freq`. */
  ghost predicate Beaten(freq: nat, f: nat, s: Search) {
    s.exact || f > freq || f <= s.best
  }

  lemma TrySound(freq: nat, reg: ClkReg, f: nat, s: Search)
    requires Sound(freq, s) && reg.Fits() && reg.regEQU == 0 && Achieves(reg, f)
    ensures var r := Try(freq, reg, f, s);
            && Sound(freq, r)
            && (s.exact ==> r == s)
            && (!r.exact ==> !s.exact && s.best <= r.best && f != freq && Beaten(freq, f, r))
  {
  }

  lemma {:induction false} VariantsSound(freq: nat, n: nat, v: int, s: Search, w: int)
    requires freq > 0 && 1 <= n <= MAX_N && -1 <= v <= 3 && Sound(freq, s)
    ensures var r := TryVariants(freq, n, v, s);
            && Sound(freq, r)
            && (s.exact ==> r == s)
            && (!r.exact ==> !s.exact && s.best <= r.best)
            && (!r.exact && v <= w <= 2 ==> var f := Freq(n, Variant(freq, n, w)); f != freq && Beaten(freq, f, r))
    decreases 3 - v
  {
    if v < 3 {
      var reg := Candidate(freq, n, v);
      var f := Freq(n, reg.regPre);
      TrySound(freq, reg, f, s);
      VariantsSound(freq, n, v + 1, Try(freq, reg, f, s), w);
    }
  }

  /** One N: whatever its prescaler, it is beaten once its four variants have been tried. */
  lemma VariantsBest(freq: nat, n: nat, s: Search, pre: nat)
    requires freq > 0 && 1 <= n <= MAX_N && pre <= MAX_PRE && Sound(freq, s)
    ensures Beaten(freq, Freq(n, pre), TryVariants(freq, n, -1, s))
  {
    VariantsSound(freq, n, -1, s, 0);
    VariantsSound(freq, n, -1, s, 1);
    if Freq(n, pre) <= freq {
      VariantsSuffice(freq, n, pre);
    }
  }

  lemma {:induction false} SearchToSound(freq: nat, n: nat)
    requires freq > 0 && n <= MAX_N
    ensures Sound(freq, SearchTo(freq, n))
  {
    if n > 0 {
      SearchToSound(freq, n - 1);
      VariantsSound(freq, n, -1, SearchTo(freq, n - 1), 3);
    }
  }

  lemma {:induction false} SearchToBest(freq: nat, n: nat, m: nat, pre: nat)
    requires freq > 0 && 1 <= m <= n <= MAX_N && pre <= MAX_PRE
    ensures Beaten(freq, Freq(m, pre), SearchTo(freq, n))
  {
    var s := SearchTo(freq, n - 1);
    SearchToSound(freq, n - 1);
    if m == n {
      VariantsBest(freq, n, s, pre);
    } else {
      SearchToBest(freq, n - 1, m, pre);
      VariantsSound(freq, n, -1, s, 3);
    }
  }

  lemma {:induction false} VariantsExact(freq: nat, n: nat, v: int, s: Search)
    requires freq > 0 && n <= MAX_N && -1 <= v <= 3 && s.exact
    ensures TryVariants(freq, n, v, s) == s
    decreases 3 - v
  {
    if v < 3 {
      VariantsExact(freq, n, v + 1, s);
    }
  }

  lemma {:induction false} ExactStays(freq: nat, n: nat, m: nat)
    requires freq > 0 && n <= m <= MAX_N && SearchTo(freq, n).exact
    ensures SearchTo(freq, m) == SearchTo(freq, n)
  {
    if n < m {
      ExactStays(freq, n, m - 1);
      VariantsExact(freq, m, -1, SearchTo(freq, m - 1));
    }
  }

  lemma SlowestIsPositive()
    ensures Freq(MAX_N, MAX_PRE) == 152
  {
  }

  /** The register a full search leaves for any requested frequency. */
  function FullSearch(freq: nat): (r: nat)
    ensures r == SYSTEM_CLOCK_REGISTER <==> freq >= SYSTEM_CLOCK
    ensures freq < Freq(MAX_N, MAX_PRE) ==> r == MIN_REG.Value()
  {
    if freq >= SYSTEM_CLOCK then SYSTEM_CLOCK_REGISTER
    else if freq < Freq(MAX_N, MAX_PRE) then MIN_REG.Value()
    else
      SlowestIsPositive();
      SearchToSound(freq, MAX_N);
      SearchTo(freq, MAX_N).reg.Value()
  }

  /** Main result: from the slowest divider's frequency up to below the system clock, the search
      picks the best of all 63 x 8192 dividers. */
  lemma SearchIsBest(freq: nat)
    requires Freq(MAX_N, MAX_PRE) <= freq < SYSTEM_CLOCK
    ensures var reg := SearchTo(freq, MAX_N).reg;
            reg.Fits() && FullSearch(freq) == reg.Value() && IsBest(freq, reg.regN, reg.regPre)
  {
    SlowestIsPositive();
    var s := SearchTo(freq, MAX_N);
    SearchToSound(freq, MAX_N);
    SearchToBest(freq, MAX_N, MAX_N, MAX_PRE);
    forall m: nat, p: nat | InRange(m, p) && Freq(m, p) <= freq
      ensures Freq(m, p) <= Freq(s.reg.regN, s.reg.regPre)
    {
      SearchToBest(freq, MAX_N, m, p);
    }
  }

  /** H is 0 and L half of N rounded up, for a duty cycle of one half; N is one of those tried. */
  predicate Shaped(reg: ClkReg, n: nat) {
    reg.regN <= n && reg.regH == 0 && reg.regL == (reg.regN + 1) / 2
  }

  /** The variants of one N only replace the register by one of that N, and only for a better one. */
  lemma {:induction false} VariantsReg(freq: nat, n: nat, v: int, s: Search)
    requires freq > 0 && n <= MAX_N && -1 <= v <= 3 && s.best < freq && !s.exact && Shaped(s.reg, n)
    ensures var r := TryVariants(freq, n, v, s);
            Shaped(r.reg, n) && r.best < freq && (r == s || r.exact || s.best < r.best)
    decreases 3 - v
  {
    if v < 3 {
      var reg := Candidate(freq, n, v);
      var t := Try(freq, reg, Freq(n, reg.regPre), s);
      if t.exact {
        VariantsExact(freq, n, v + 1, t);
      } else {
        VariantsReg(freq, n, v + 1, t);
      }
    }
  }

  lemma {:induction false} SearchShaped(freq: nat, n: nat)
    requires freq > 0 && n <= MAX_N
    ensures Shaped(SearchTo(freq, n).reg, n)
  {
    if n > 0 {
      var s := SearchTo(freq, n - 1);
      SearchShaped(freq, n - 1);
      SearchToSound(freq, n - 1);
      if s.exact {
        VariantsExact(freq, n, -1, s);
      } else {
        VariantsReg(freq, n, -1, s);
      }
    }
  }

  /** The frequency a search stands for: 0 before anything is found. */
  function Reached(freq: nat, s: Search): nat {
    if s.exact then freq else s.best
  }

  /** Of the dividers that reach the frequency found, one with the smallest N is kept. */
  lemma {:induction false} SmallestN(freq: nat, n: nat, m: nat, pre: nat)
    requires freq > 0 && 1 <= m <= n <= MAX_N && pre <= MAX_PRE
    requires Freq(m, pre) == Reached(freq, SearchTo(freq, n))
    ensures SearchTo(freq, n).reg.regN <= m
  {
    if m == n {
      SearchShaped(freq, n);
    } else {
      var s := SearchTo(freq, n - 1);
      SearchToSound(freq, n - 1);
      SearchShaped(freq, n - 1);
      if s.exact {
        VariantsExact(freq, n, -1, s);
      } else {
        VariantsReg(freq, n, -1, s);
        SearchToBest(freq, n - 1, m, pre);
      }
      SmallestN(freq, n - 1, m, pre);
    }
  }

  /** What the word for SPI1CLK must be, bit by bit: the undivided clock, the slowest divider, or
      the best divider not above the frequency, with the smallest N of those. */
  ghost predicate IsWordFor(freq: nat, w: nat) {
    if freq >= 80_000_000 then w == 0x8000_0000
    else if freq < 152 then w == 0x7FFF_F000
    else
      var n, pre := w / 4096 % 64, w / 262144 % 8192;
      && w / 0x8000_0000 == 0 && w / 64 % 64 == 0 && w % 64 == (n + 1) / 2
      && n >= 1 && 80_000_000 / ((pre + 1) * (n + 1)) <= freq
      && forall m: nat, p: nat :: InRange(m, p) && 80_000_000 / ((p + 1) * (m + 1)) <= freq ==>
           || 80_000_000 / ((p + 1) * (m + 1)) < 80_000_000 / ((pre + 1) * (n + 1))
           || (80_000_000 / ((p + 1) * (m + 1)) == 80_000_000 / ((pre + 1) * (n + 1)) && n <= m)
  }

  lemma FullSearchWord(freq: nat)
    ensures IsWordFor(freq, FullSearch(freq))
  {
    SlowestIsPositive();
    if freq < 152 {
      assert MIN_REG.Value() == 0x7FFF_F000;
    } else if freq < SYSTEM_CLOCK {
      SearchIsBest(freq);
      WordOfBest(freq, SearchTo(freq, MAX_N));
    }
  }

  lemma WordOfBest(freq: nat, s: Search)
    requires 0 < freq < SYSTEM_CLOCK && s == SearchTo(freq, MAX_N) && s.reg.Fits()
    requires IsBest(freq, s.reg.regN, s.reg.regPre) && freq >= 152
    ensures IsWordFor(freq, s.reg.Value())
  {
    var reg := s.reg;
    FieldsOfWord(reg);
    SearchShaped(freq, MAX_N);
    SearchToSound(freq, MAX_N);
    forall m: nat, p: nat | InRange(m, p) && Freq(m, p) <= freq
      ensures Freq(m, p) < Freq(reg.regN, reg.regPre) || (Freq(m, p) == Freq(reg.regN, reg.regPre) && reg.regN <= m)
    {
      if Freq(m, p) == Freq(reg.regN, reg.regPre) {
        SearchToBest(freq, MAX_N, m, p);
        SmallestN(freq, MAX_N, m, p);
      }
    }
  }

  // ---------- registers, the cache and setFrequency ----------

  class SPIClass {
    var SPI1CLK: nat
    /** Bit 9 of GPMUX: the system clock itself goes to the pin. No other bit is touched. */
    var sysClkRouted: bool
    var lastSetFrequency: nat
    var lastSetRegister: nat
    /** Whether any divider has been written since reset. */
    ghost var written: bool

    /** After reset the static cache is zero; the hardware registers hold anything. */
    constructor (clk: nat, routed: bool)
      ensures Valid() && SPI1CLK == clk && sysClkRouted == routed && lastSetFrequency == 0 && lastSetRegister == 0
    {
      SPI1CLK, sysClkRouted, lastSetFrequency, lastSetRegister, written := clk, routed, 0, 0, false;
    }

    /** Holds in every reachable state: a remembered frequency goes with the register its full
        search leaves, and the multiplexer bit always agrees with the divider last written. */
    ghost predicate Valid()
      reads this
    {
      && (lastSetFrequency > 0 ==> written && lastSetFrequency < SYSTEM_CLOCK
                                   && lastSetRegister == FullSearch(lastSetFrequency))
      && (lastSetFrequency == 0 ==> lastSetRegister == 0 || (written && lastSetRegister == FullSearch(0)))
      && (written ==> sysClkRouted == (SPI1CLK == SYSTEM_CLOCK_REGISTER))
    }

    method SetClockDivider(clockDiv: nat)
      requires Valid()
      modifies this`SPI1CLK, this`sysClkRouted, this`written
      ensures Valid() && written
      ensures SPI1CLK == clockDiv && sysClkRouted == (clockDiv == SYSTEM_CLOCK_REGISTER)
    {
      if clockDiv == SYSTEM_CLOCK_REGISTER {
        sysClkRouted := true;
      } else {
        sysClkRouted := false;
      }
      SPI1CLK := clockDiv;
      written := true;
    }

    /** The cache is transparent: whatever happened before, the register and the multiplexer bit
        end up as the full search leaves them; the one exception is asking for 0 Hz right
        after reset while the register still reads 0. */
    method SetFrequency(freq: nat)
      requires Valid()
      modifies this
      ensures Valid()
      ensures old(CacheSpeaksUnset(freq)) ==> SPI1CLK == old(SPI1CLK) && sysClkRouted == old(sysClkRouted)
      ensures !old(CacheSpeaksUnset(freq)) ==>
                SPI1CLK == FullSearch(freq) && sysClkRouted == (freq >= SYSTEM_CLOCK)
      ensures !old(CacheSpeaksUnset(freq)) ==> IsWordFor(freq, SPI1CLK)
    {
      FullSearchWord(freq);
      if freq >= SYSTEM_CLOCK {
        SetClockDivider(SYSTEM_CLOCK_REGISTER);
        return;
      }
      if lastSetFrequency == freq && lastSetRegister == SPI1CLK {
        return;
      }
      var divider := ChooseDivider(freq);
      SetClockDivider(divider);
      lastSetRegister, lastSetFrequency := SPI1CLK, freq;
    }

    /** The never-written cache claims that 0 Hz is already set. */
    predicate CacheSpeaksUnset(freq: nat)
      reads this
    {
      freq == 0 && lastSetFrequency == 0 && lastSetRegister == 0 && SPI1CLK == 0
    }

    /** The slowest divider for anything slower than it, the search otherwise. */
    method ChooseDivider(freq: nat) returns (divider: nat)
      requires freq < SYSTEM_CLOCK
      ensures divider == FullSearch(freq) && IsWordFor(freq, divider)
    {
      FullSearchWord(freq);
      var reg := MIN_REG;
      if freq >= Freq(reg.regN, reg.regPre) {
        SlowestIsPositive();
        reg := BestRegister(freq);
        SearchToSound(freq, MAX_N);
      }
      divider := reg.Value();
    }

    /** The search loop over N. */
    method BestRegister(freq: nat) returns (bestReg: ClkReg)
      requires 0 < freq < SYSTEM_CLOCK
      ensures bestReg == SearchTo(freq, MAX_N).reg
    {
      var calN, bestFreq := 1, 0;
      bestReg := ClkReg(0, 0, 0, 0, 0);
      while calN <= MAX_N
        invariant 1 <= calN <= MAX_N + 1 && 0 <= bestFreq < freq
        invariant SearchTo(freq, calN - 1) == Search(bestReg, bestFreq, false)
      {
        var exact;
        bestReg, bestFreq, exact := BestVariant(freq, calN, bestReg, bestFreq);
        if exact {
          ExactStays(freq, calN, MAX_N);
          return;
        }
        calN := calN + 1;
      }
    }

    /** The inner loop: the four prescaler variants of one N. */
    method BestVariant(freq: nat, n: nat, reg0: ClkReg, freq0: nat)
        returns (bestReg: ClkReg, bestFreq: nat, exact: bool)
      requires 0 < freq && n <= MAX_N && freq0 < freq
      ensures Search(bestReg, bestFreq, exact) == TryVariants(freq, n, -1, Search(reg0, freq0, false))
      ensures bestFreq < freq
    {
      bestReg, bestFreq, exact := reg0, freq0, false;
      var vari := -1;
      while vari <= 2
        invariant -1 <= vari <= 3 && bestFreq < freq && !exact
        invariant TryVariants(freq, n, vari, Search(bestReg, bestFreq, false))
               == TryVariants(freq, n, -1, Search(reg0, freq0, false))
      {
        var reg := Candidate(freq, n, vari);
        var calFreq := Freq(n, reg.regPre);
        if calFreq == freq {
          VariantsExact(freq, n, vari + 1, Search(reg, bestFreq, true));
          return reg, bestFreq, true;
        } else if calFreq < freq {
          if freq - calFreq < freq - bestFreq {
            bestFreq := calFreq;
            bestReg := reg;
          }
        }
        vari := vari + 1;
      }
    }
  }

  /** The exception is real: in that state asking for 0 Hz leaves the register at 0, where the
      full search leaves the slowest divider. */
  method UnsetCacheIsNotTransparent(spi: SPIClass)
    requires spi.Valid() && spi.CacheSpeaksUnset(0)
    modifies spi
    ensures spi.Valid() && spi.SPI1CLK == old(spi.SPI1CLK) != FullSearch(0)
  {
    SlowestIsPositive();
    spi.SetFrequency(0);
  }

  /** It is the state after reset with a zero register. */
  method ResetCanSpeakUnset() returns (spi: SPIClass)
    ensures spi.Valid() && spi.CacheSpeaksUnset(0)
  {
    spi := new SPIClass(0, false);
  }
}
