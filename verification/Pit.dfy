/** The fixed-point arithmetic of kernel/PIT/PIT.c. */
module Pit {
  import opened Ints

  const CRYSTAL := 3579545 // three times the timer frequency in Hz
  const TICK := 0xDBB3A062 // 2^42 ms in units of one reload count

  // ---------- the arithmetic ----------

  /** The divisions with the increment of the source, which compares with half the dividend. */
  function Quotient(d: nat): nat
    requires d > 0
  {
    CRYSTAL / d + (if CRYSTAL % d >= CRYSTAL / 2 then 1 else 0)
  }

  function Third(q: nat): nat {
    q / 3 + (if q % 3 >= 2 then 1 else 0)
  }

  function Reload(f: U32): nat {
    if f <= 18 then 0x1_0000 else if f >= 1193181 then 1 else Third(Quotient(f))
  }

  function Frequency(reload: nat): nat
    requires reload > 0
  {
    Third(Quotient(reload))
  }

  /** The period as a 32.32 fixed-point number of milliseconds. */
  function Period(reload: nat): nat {
    TICK * reload / 0x400
  }

  // ---------- what it computes ----------

  lemma DivBounds(a: nat, d: nat)
    requires d > 0
    ensures a / d * d <= a < a / d * d + d
  {
  }

  /** The increment never happens for a divisor the code uses: the remainder is below the divisor. */
  lemma NoIncrement(d: nat)
    requires 0 < d <= CRYSTAL / 2
    ensures Quotient(d) == CRYSTAL / d
  {
  }

  lemma Scaled(q: nat, t: nat, d: nat)
    requires 3 * t - 1 <= q <= 3 * t + 1
    ensures (3 * t - 1) * d <= q * d <= (3 * t + 1) * d
  {
    MulLe(3 * t - 1, q, d);
    MulLe(q, 3 * t + 1, d);
  }

  /** Rounding down and then to the nearest third is off by less than two thirds below the exact value and
      by at most one third above it. */
  lemma ThirdBounds(d: nat)
    requires 0 < d <= CRYSTAL / 2
    ensures -2 * d < 3 * (d * Third(Quotient(d))) - CRYSTAL <= d
  {
    NoIncrement(d);
    var q := CRYSTAL / d;
    var t := Third(q);
    DivBounds(CRYSTAL, d);
    Scaled(q, t, d);
    assert (3 * t - 1) * d == 3 * (d * t) - d;
    assert (3 * t + 1) * d == 3 * (d * t) + d;
  }

  lemma ReloadBounds(f: U32)
    ensures 1 <= Reload(f) <= 0x1_0000
    ensures (f <= 18 ==> Reload(f) == 0x1_0000) && (f >= 1193181 ==> Reload(f) == 1)
    ensures f > 18 ==> Reload(f) <= 0xFFFF
    ensures 18 < f < 1193181 ==> -2 * f < 3 * (f * Reload(f)) - 3579545 <= f
  {
    if 18 < f < 1193181 {
      ThirdBounds(f);
      MulLe(19, f, Reload(f));
    }
  }

  lemma Below(a: nat, b: nat, c: nat)
    ensures a <= b ==> a * c <= b * c
  {
    if a <= b {
      MulLe(a, b, c);
    }
  }

  lemma QuotientFalls(f: nat, g: nat)
    requires 0 < f <= g
    ensures CRYSTAL / g <= CRYSTAL / f
  {
    var a, b := CRYSTAL / f, CRYSTAL / g;
    DivBounds(CRYSTAL, f);
    DivBounds(CRYSTAL, g);
    MulLe(f, g, b);
    Below(a + 1, b, f);
  }

  /** A higher frequency never gets a larger reload value. */
  lemma ReloadFalls(f: U32, g: U32)
    requires f <= g
    ensures Reload(f) >= Reload(g)
  {
    ReloadBounds(f);
    ReloadBounds(g);
    if 18 < f && g < 1193181 {
      NoIncrement(f);
      NoIncrement(g);
      QuotientFalls(f, g);
    }
  }

  /** The reload value is an integer nearest to the exact one unless the exact one has a fraction between
      a half and two thirds. */
  lemma NearestExactly(f: U32)
    requires 18 < f < 1193181
    ensures (-3 * f <= 2 * (3 * (f * Reload(f)) - CRYSTAL) <= 3 * f)
       <==> !(3 * f < 2 * (CRYSTAL % (3 * f)) < 4 * f)
  {
    hide Quotient, Third;
    ThirdBounds(f);
    DivMod(CRYSTAL, 3 * f);
    NearestOf(f, Reload(f), CRYSTAL / (3 * f), CRYSTAL % (3 * f));
  }

  lemma DivMod(a: nat, d: nat)
    requires d > 0
    ensures a == d * (a / d) + a % d && a % d < d
  {
  }

  lemma NearestOf(f: nat, r: nat, n: nat, m: nat)
    requires m < 3 * f && CRYSTAL == 3 * f * n + m && -2 * f < 3 * (f * r) - CRYSTAL <= f
    ensures (-3 * f <= 2 * (3 * (f * r) - CRYSTAL) <= 3 * f) <==> !(3 * f < 2 * m < 4 * f)
  {
    Apart(f, r, n);
    var k := r - n;
    assert 3 * (f * r) - CRYSTAL == 3 * (f * k) - m;
    Between(f, k, m);
  }

  lemma Apart(f: nat, r: nat, n: nat)
    ensures 3 * (f * r) - 3 * f * n == 3 * (f * (r - n))
  {
  }

  lemma Between(f: nat, k: int, m: nat)
    requires f > 0 && m < 3 * f && -2 * f < 3 * (f * k) - m <= f
    ensures k == 0 || k == 1
  {
    OutsideUnit(f, k);
  }

  lemma OutsideUnit(f: nat, k: int)
    ensures k <= -1 ==> f * k <= 0 - f
    ensures k >= 2 ==> f * k >= 2 * f
  {
    if k <= -1 {
      assert f * (k + 1) <= 0;
    }
    if k >= 2 {
      assert f * (k - 2) >= 0;
    }
  }

  /** At 22 Hz the exact reload value is 54235.53; the code takes 54235. */
  lemma NotNearest()
    ensures Reload(22) == 54235
    ensures 3 * (22 * 54236) - CRYSTAL < CRYSTAL - 3 * (22 * 54235)
  {
  }

  /** The frequency reported for a reload value is as accurate. */
  lemma FrequencyBounds(f: U32)
    ensures var r := Reload(f);
            -2 * r < 3 * (r * Frequency(r)) - 3579545 <= r
  {
    ReloadBounds(f);
    ThirdBounds(Reload(f));
  }

  /** The fixed-point period is above the exact one, 3000 * 2^32 * reload / CRYSTAL, less one unit and
      below it plus four. */
  lemma PeriodBounds(reload: nat)
    requires reload <= 0x1_0000
    ensures 3579545 * (Period(reload) + 1) > 3000 * LIMIT32 * reload
    ensures 3579545 * (Period(reload) - 4) < 3000 * LIMIT32 * reload
  {
  }

  /** The divisor that the two bytes written to channel 0 stand for. */
  function Divisor(low: Byte, high: Byte): nat {
    if low == 0 && high == 0 then 0x1_0000 else low + 0x100 * high
  }

  // ---------- the code ----------

  class Timer {
    var reloadValue: U16
    var frequency: U32
    var ms: U32
    var fractions: U32

    constructor ()
    {
      reloadValue, frequency, ms, fractions := 0, 0, 0, 0;
    }

    /** `pit_init`; the two bytes go to the data port of channel 0. */
    method Init(frequencyHz: U32) returns (low: Byte, high: Byte)
      modifies this
      ensures Divisor(low, high) == Reload(frequencyHz) && reloadValue == low + 0x100 * high
      ensures frequency == Frequency(Reload(frequencyHz))
      ensures ms * LIMIT32 + fractions == Period(Reload(frequencyHz))
    {
      hide Quotient, Third, TICK, Period;
      ReloadBounds(frequencyHz);
      var reload;
      if frequencyHz <= 18 {
        reload := 0x1_0000;
      } else if frequencyHz >= 1193181 {
        reload := 1;
      } else {
        reload := RoundedThird(frequencyHz);
      }
      reloadValue := reload % LIMIT16;
      frequency := RoundedThird(reload);
      ms, fractions := FixedPoint(reload);
      low, high := reloadValue % 0x100, reloadValue / 0x100;
    }
  }

  /** The two rounded divisions; both uses have the same lines. */
  method RoundedThird(d: nat) returns (t: U32)
    requires d > 0
    ensures t == Third(Quotient(d))
  {
    MulLe(1, d, CRYSTAL / d);
    DivBounds(CRYSTAL, d);
    var quotient := CRYSTAL / d;
    var remainder := CRYSTAL % d;
    if remainder >= CRYSTAL / 2 {
      quotient := quotient + 1;
    }
    t := quotient / 3;
    if quotient % 3 >= 2 {
      t := t + 1;
    }
  }

  /** Whole milliseconds and the fraction. */
  method FixedPoint(reload: nat) returns (ms: U32, fractions: U32)
    requires reload <= 0x1_0000
    ensures ms * LIMIT32 + fractions == Period(reload)
  {
    var timeFixed := TICK * reload;
    timeFixed := timeFixed / 0x400;
    ms := timeFixed / LIMIT32;
    fractions := timeFixed % LIMIT32;
  }
}
