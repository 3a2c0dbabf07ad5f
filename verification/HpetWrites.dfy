/** What comparator writes mean to the guest: the value the comparator takes, and the counter the timer goes off at. */
module HpetWrites {
  import opened Basics
  import opened HpetTimer
  import opened Hpet

  // ---- Values ------------------------------------------------------------------------------------------

  /** Dropping the set-value bit leaves every other bit of the configuration. */
  lemma OnlySetvalCleared(config: bv16)
    ensures !Has(ClearSetval(config), 0x40)
    ensures ClearSetval(config) | 0x40 == config | 0x40
    ensures Has(ClearSetval(config), TN_PERIODIC) <==> Has(config, TN_PERIODIC)
    ensures Has(ClearSetval(config), TN_32BIT) <==> Has(config, TN_32BIT)
  {
  }

  /** Arming changes no register. */
  lemma RearmedRegisters(t: Timer, running: bool, tick: nat)
    ensures var u := Rearmed(t, running, tick);
            && u.cmp == t.cmp && u.period == t.period && u.upper == t.upper && u.config == ClearSetval(t.config)
            && (u.Periodic() <==> t.Periodic()) && (u.Narrow() <==> t.Narrow())
            && (!running ==> u.armed == t.armed && u.wrapFlag == t.wrapFlag)
  {
    OnlySetvalCleared(t.config);
  }

  function LowWritten(t: Timer, value: nat, running: bool, tick: nat): Timer {
    Rearmed(ComparatorWritten(t, value), running, tick)
  }

  function HighWritten(t: Timer, value: nat, running: bool, tick: nat): Timer {
    Rearmed(HighComparatorWritten(t, value), running, tick)
  }

  lemma Halves(x: nat, low: nat, high: nat)
    requires x < TWO_64 && low < TWO_32 && high < TWO_32
    ensures (x / TWO_32 * TWO_32 + low) % TWO_32 == low
    ensures x / TWO_32 * TWO_32 + low < TWO_64
    ensures (x % TWO_32 + high * TWO_32) / TWO_32 == high
    ensures x % TWO_32 + high * TWO_32 < TWO_64
  {
  }

  /** A one-shot timer takes a comparator written in two halves, in either order, and no period. */
  lemma OneShotTakes(t: Timer, low: nat, high: nat, running: bool, tick: nat, later: nat)
    requires t.Valid() && !t.Periodic() && low < TWO_32 && high < TWO_32
    ensures var u := HighWritten(LowWritten(t, low, running, tick), high, running, later);
            u.cmp == high * TWO_32 + low && u.period == t.period
    ensures var u := LowWritten(HighWritten(t, high, running, tick), low, running, later);
            u.cmp == high * TWO_32 + low && u.period == t.period
  {
    Halves(t.cmp, low, high);
    RearmedRegisters(ComparatorWritten(t, low), running, tick);
    RearmedRegisters(HighComparatorWritten(LowWritten(t, low, running, tick), high), running, later);
    RearmedRegisters(HighComparatorWritten(t, high), running, tick);
    RearmedRegisters(ComparatorWritten(HighWritten(t, high, running, tick), low), running, later);
  }

  /**
   A low-word write to a periodic timer: with the set-value bit comparator and period take the value, without it only
   the period does.  The bit is gone afterwards, so of two writes the first sets the comparator and the second the
   period.  A 32-bit period loses its top bit.
   */
  lemma PeriodicTakes(t: Timer, value: nat, running: bool, tick: nat)
    requires t.Valid() && t.Periodic() && value < TWO_32
    ensures var u := LowWritten(t, value, running, tick);
            && u.period % TWO_32 == (if t.Narrow() then value % 0x8000_0000 else value)
            && u.period / TWO_32 == t.period / TWO_32 && u.cmp / TWO_32 == t.cmp / TWO_32
            && u.cmp % TWO_32 == (if Has(t.config, TN_SETVAL) then value else t.cmp % TWO_32)
            && !Has(u.config, TN_SETVAL) && u.Periodic()
  {
    OnlySetvalCleared(t.config);
    RearmedRegisters(ComparatorWritten(t, value), running, tick);
    LowHalf(t.cmp, value);
    LowHalf(t.period, Clamped(t, value));
  }

  lemma LowHalf(x: nat, low: nat)
    requires low < TWO_32
    ensures (x / TWO_32 * TWO_32 + low) % TWO_32 == low && (x / TWO_32 * TWO_32 + low) / TWO_32 == x / TWO_32
  {
  }

  /** A high-word write to a periodic timer: with the set-value bit the comparator takes it, without it the period. */
  lemma PeriodicTakesHigh(t: Timer, value: nat, running: bool, tick: nat)
    requires t.Valid() && t.Periodic() && value < TWO_32
    ensures var u := HighWritten(t, value, running, tick);
            && (if Has(t.config, TN_SETVAL) then u.cmp / TWO_32 == value && u.period == t.period
                else u.period / TWO_32 == (if t.Narrow() then value % 0x8000_0000 else value) && u.cmp == t.cmp)
            && u.cmp % TWO_32 == t.cmp % TWO_32 && u.period % TWO_32 == t.period % TWO_32
            && !Has(u.config, TN_SETVAL)
  {
    OnlySetvalCleared(t.config);
    RearmedRegisters(HighComparatorWritten(t, value), running, tick);
    HighHalf(t.cmp, value);
    HighHalf(t.period, Clamped(t, value));
  }

  lemma HighHalf(x: nat, high: nat)
    ensures (x % TWO_32 + high * TWO_32) / TWO_32 == high && (x % TWO_32 + high * TWO_32) % TWO_32 == x % TWO_32
  {
  }

  /** Programming a periodic timer: the first low-word write sets the comparator and the second the period. */
  lemma ComparatorThenPeriod(t: Timer, cmp: nat, period: nat, running: bool, tick: nat, later: nat)
    requires t.Valid() && t.Periodic() && Has(t.config, TN_SETVAL) && cmp < TWO_32 && period < TWO_32
    ensures var u := LowWritten(LowWritten(t, cmp, running, tick), period, running, later);
            && u.cmp % TWO_32 == cmp
            && u.period % TWO_32 == if t.Narrow() then period % 0x8000_0000 else period
  {
    PeriodicTakes(t, cmp, running, tick);
    var u := LowWritten(t, cmp, running, tick);
    RearmedRegisters(ComparatorWritten(t, cmp), running, tick);
    ValuesFit(t, cmp);
    PeriodicTakes(u, period, running, later);
  }

  lemma ValuesFit(t: Timer, value: nat)
    requires t.Valid() && value < TWO_32
    ensures ComparatorWritten(t, value).Valid()
  {
    Halves(t.cmp, value, 0);
    Halves(t.period, Clamped(t, value), 0);
  }

  // ---- Arming ------------------------------------------------------------------------------------------

  /** What the comparator of a timer is worth to the comparison. */
  function Target(t: Timer): nat {
    t.cmp % Modulus(t.Narrow())
  }

  lemma AheadOfTarget(cmp: nat, tick: nat, narrow: bool)
    ensures Ahead(cmp, tick, narrow) == 0 <==> tick % Modulus(narrow) == cmp % Modulus(narrow)
  {
    if narrow {
      Residues32(cmp, tick);
    } else {
      Residues64(cmp, tick);
    }
  }

  lemma Residues32(a: nat, b: nat)
    ensures (a - b) % TWO_32 == 0 <==> b % TWO_32 == a % TWO_32
  {
  }

  lemma Residues64(a: nat, b: nat)
    ensures (a - b) % TWO_64 == 0 <==> b % TWO_64 == a % TWO_64
  {
  }

  /**
   A timer armed for a comparator that is ahead goes off when the counter is at it, as long as 64-bit times do not
   overflow - or, exactly if it is a 32-bit one-shot timer whose comparator lies beyond the wrap, first when the low
   word of the counter is all ones, with the wrap flag set.
   */
  lemma ArmedGoesOff(t: Timer, now: nat, offset: nat)
    requires var tick := CounterAt(now, offset);
             0 < Ahead(t.cmp, tick, t.Narrow()) < Half(t.Narrow())
             && now + offset + Ahead(t.cmp, tick, t.Narrow()) * CLK_PERIOD < TWO_64
    ensures var tick := CounterAt(now, offset);
            var u := ArmedAt(t, tick);
            && u.armed.Delay?
            && var expiry := CounterAt(now + u.armed.ns, offset);
            && (u.wrapFlag <==>
                  t.Narrow() && !t.Periodic() && tick % TWO_32 + Ahead(t.cmp, tick, true) > 0xffff_ffff)
            && (if u.wrapFlag then expiry % TWO_32 == 0xffff_ffff else expiry % Modulus(t.Narrow()) == Target(t))
  {
    var tick := CounterAt(now, offset);
    var diff := Ahead(t.cmp, tick, t.Narrow());
    var u := ArmedAt(t, tick);
    if t.Narrow() && !t.Periodic() && WrapDistance(tick) < diff {
      CounterAdvances(now, offset, WrapDistance(tick));
      AtWrap(tick);
    } else {
      CounterAdvances(now, offset, diff);
      AheadLess(t.cmp, tick, diff, t.Narrow());
      AheadOfTarget(t.cmp, tick + diff, t.Narrow());
    }
  }

  lemma AtWrap(tick: nat)
    ensures (tick + WrapDistance(tick)) % TWO_32 == 0xffff_ffff
  {
  }

  /**
   After the wrap: the callback re-arms a timer that is still short of its comparator, and that delay ends with the
   counter at it.
   */
  lemma RearmedAfterWrap(t: Timer, after: Timer, now: nat, offset: nat)
    requires t.Narrow() && !t.Periodic() && t.wrapFlag
    requires var tick := CounterAt(now, offset);
             && Expired(t, after, tick)
             && 0 < Ahead(t.cmp, tick, true) < Half(true)
             && now + offset + Ahead(t.cmp, tick, true) * CLK_PERIOD < TWO_64
    ensures after.armed.Delay? && !after.wrapFlag
    ensures CounterAt(now + after.armed.ns, offset) % TWO_32 == t.cmp % TWO_32
  {
    var tick := CounterAt(now, offset);
    var diff := Ahead(t.cmp, tick, true);
    CounterAdvances(now, offset, diff);
    AheadLess(t.cmp, tick, diff, true);
    AheadOfTarget(t.cmp, tick + diff, true);
  }

  /**
   A periodic expiry moves the comparator to its first match not behind the counter and arms the timer for it: the next
   expiry finds the counter there, or one tick past it if the counter already was.
   */
  lemma PeriodicGoesOff(t: Timer, after: Timer, now: nat, offset: nat)
    requires t.Periodic() && t.period != 0
    requires Expired(t, after, CounterAt(now, offset))
    requires now + offset + Diff(after.cmp, CounterAt(now, offset), t.Narrow()) * CLK_PERIOD < TWO_64
    ensures FirstMatch(t.cmp, t.period, CounterAt(now, offset), t.Narrow(), after.cmp)
    ensures after.armed.Delay? && after.period == t.period && after.config == t.config
    ensures var past := if Ahead(after.cmp, CounterAt(now, offset), t.Narrow()) == 0 then 1 else 0;
            CounterAt(now + after.armed.ns, offset) % Modulus(t.Narrow()) == (after.cmp + past) % Modulus(t.Narrow())
  {
    var tick := CounterAt(now, offset);
    var k: nat :| FirstMatchAt(t.cmp, t.period, tick, t.Narrow(), after.cmp, k);
    DelayReaches(after.cmp, now, offset, t.Narrow());
    var expiry := CounterAt(now + after.armed.ns, offset);
    AheadOfTarget(after.cmp, expiry, t.Narrow());
    AheadOfTarget(after.cmp + 1, expiry, t.Narrow());
  }

  /** A value written to the low word of a running 64-bit one-shot comparator, and ahead: the timer goes off at it. */
  lemma WrittenGoesOff(t: Timer, value: nat, now: nat, offset: nat)
    requires t.Valid() && !t.Periodic() && !t.Narrow() && value < TWO_32
    requires var tick, cmp := CounterAt(now, offset), t.cmp / TWO_32 * TWO_32 + value;
             0 < Ahead(cmp, tick, false) < Half(false) && now + offset + Ahead(cmp, tick, false) * CLK_PERIOD < TWO_64
    ensures var u := LowWritten(t, value, true, CounterAt(now, offset));
            && u.armed.Delay?
            && CounterAt(now + u.armed.ns, offset) == t.cmp / TWO_32 * TWO_32 + value
  {
    var tick := CounterAt(now, offset);
    var w := ComparatorWritten(t, value).(config := ClearSetval(t.config));
    OnlySetvalCleared(t.config);
    ArmedGoesOff(w, now, offset);
    Halves(t.cmp, value, 0);
    Exact64(CounterAt(now + ArmedAt(w, tick).armed.ns, offset), w.cmp);
  }

  lemma Exact64(counter: nat, cmp: nat)
    requires counter < TWO_64 && cmp < TWO_64 && counter % TWO_64 == cmp % TWO_64
    ensures counter == cmp
  {
  }
}
