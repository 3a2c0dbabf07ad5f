/**
 The HPET emulation: three timers, the main counter that halts and restarts, and the register writes.  Register
 accesses are 32 bits wide and address timers 0 to 2; the decoding of offsets into these methods is not modelled.
 */
module Hpet {
  import opened Basics
  import opened Chains
  import opened HpetTimer

  const TN_TYPE_LEVEL: bv16 := 0x002
  const TN_ENABLE: bv16 := 0x004
  const TN_PERIODIC: bv16 := 0x008
  const TN_SETVAL: bv16 := 0x040
  const TN_32BIT: bv16 := 0x100
  const TN_FSB_ENABLE: bv16 := 0x4000
  const TN_CFG_WRITE_MASK: bv16 := 0x7f4e
  const CFG_ENABLE: bv16 := 0x001
  const CFG_WRITE_MASK: bv16 := 0x3

  const NEVER: nat := 0xffff_ffff_ffff_ffff

  // ---- Register bits -----------------------------------------------------------------------------------

  function FixupReg(new_: bv16, old_: bv16, mask: bv16): bv16 {
    (new_ & mask) | (old_ & !mask)
  }

  predicate Has(reg: bv16, mask: bv16) {
    reg & mask != 0
  }

  /** A register write takes the writable bits from the guest and keeps the others. */
  lemma FixupKeeps(new_: bv16, old_: bv16, mask: bv16)
    ensures FixupReg(new_, old_, mask) & mask == new_ & mask
    ensures FixupReg(new_, old_, mask) & !mask == old_ & !mask
  {
    TakesMasked(new_, old_, mask);
    KeepsUnmasked(new_, old_, mask);
  }

  lemma TakesMasked(new_: bv16, old_: bv16, mask: bv16)
    ensures ((new_ & mask) | (old_ & !mask)) & mask == new_ & mask
  {
  }

  lemma KeepsUnmasked(new_: bv16, old_: bv16, mask: bv16)
    ensures ((new_ & mask) | (old_ & !mask)) & !mask == old_ & !mask
  {
  }

  lemma EnableBit(value: bv16, old_: bv16)
    ensures Has(FixupReg(value, old_, CFG_WRITE_MASK), CFG_ENABLE) <==> Has(value, CFG_ENABLE)
  {
  }

  /** The low bits of a timer's configuration outside the write mask 0x7f4e: capabilities and reserved bits. */
  function ReadOnly(config: bv16): bv16 {
    config & 0x80b1
  }

  lemma WritableBits(new_: bv16, old_: bv16)
    ensures var config := FixupReg(new_, old_, TN_CFG_WRITE_MASK);
            && ReadOnly(config) == ReadOnly(old_)
            && (Has(config, TN_ENABLE) <==> Has(new_, TN_ENABLE))
  {
  }

  /** The configuration without the set-value bit 0x40. */
  function ClearSetval(config: bv16): bv16 {
    config & 0xffbf
  }

  lemma SetvalCleared(config: bv16)
    ensures ReadOnly(ClearSetval(config)) == ReadOnly(config)
  {
  }

  lemma SetvalEnable(config: bv16)
    ensures Has(ClearSetval(config), TN_ENABLE) <==> Has(config, TN_ENABLE)
  {
  }

  // ---- Timers ------------------------------------------------------------------------------------------

  datatype Armed = Stopped | Delay(ns: nat)

  /**
   A timer's registers.  No write reaches past bit 15 of the configuration; bits 16 to 63, which hold the interrupt
   routes it is capable of, are kept apart.
   */
  datatype Timer = Timer(config: bv16, upper: nat, cmp: nat, period: nat, wrapFlag: bool, armed: Armed) {
    predicate Valid() {
      cmp < TWO_64 && period < TWO_64
    }

    predicate Enabled() {
      Has(config, TN_ENABLE)
    }

    predicate Periodic() {
      Has(config, TN_PERIODIC)
    }

    predicate Narrow() {
      Has(config, TN_32BIT)
    }
  }

  /** The timer armed for its comparator at the given tick; a one-shot 32-bit timer may stop at the wrap first. */
  function ArmedAt(t: Timer, tick: nat): Timer {
    if t.Narrow() && !t.Periodic() then
      var (distance, wraps) := ArmOneShot(t.cmp, tick);
      t.(wrapFlag := wraps, armed := Delay(TicksToNs(distance)))
    else t.(wrapFlag := false, armed := Delay(TicksToNs(Diff(t.cmp, tick, t.Narrow()))))
  }

  /** A low-word write: the comparator when it may be set, and the period of a periodic timer. */
  function ComparatorWritten(t: Timer, value: nat): Timer {
    t.(cmp := if SetsComparator(t) then t.cmp / TWO_32 * TWO_32 + value else t.cmp,
       period := if t.Periodic() then t.period / TWO_32 * TWO_32 + Clamped(t, value) else t.period)
  }

  /** A high-word write: the comparator when it may be set, and otherwise the period. */
  function HighComparatorWritten(t: Timer, value: nat): Timer {
    if SetsComparator(t) then t.(cmp := t.cmp % TWO_32 + value * TWO_32)
    else t.(period := t.period % TWO_32 + Clamped(t, value) * TWO_32)
  }

  predicate SetsComparator(t: Timer) {
    !t.Periodic() || Has(t.config, TN_SETVAL)
  }

  /** A period word; 31 bits in a narrow timer. */
  function Clamped(t: Timer, value: nat): nat {
    if t.Narrow() then value % Half(true) else value
  }

  /** After a comparator write the write-once bit goes, and a running timer is armed again. */
  function Rearmed(t: Timer, running: bool, tick: nat): Timer {
    var after := t.(config := ClearSetval(t.config));
    if running then ArmedAt(after, tick) else after
  }

  /**
   Programming a period of a 32-bit timer by its low word keeps the period below half the modulus, which is what the
   catch-up needs; a high word written without the set-value bit puts bits above the modulus and can make the period
   a non-zero multiple of it, which is when the catch-up does not end.
   */
  lemma PeriodOfNarrowTimer(t: Timer, low: nat, high: nat)
    requires t.Valid() && t.Periodic() && t.Narrow() && low < TWO_32 && high < TWO_32
    ensures t.period < TWO_32 ==> ComparatorWritten(t, low).period < Half(true)
    ensures ComparatorWritten(t, low).period % Modulus(true) == low % Half(true)
    ensures !SetsComparator(t) ==>
              (HighComparatorWritten(t, high).period % Modulus(true) == 0 <==> t.period % TWO_32 == 0)
    ensures !SetsComparator(t) && high % Half(true) != 0 ==> HighComparatorWritten(t, high).period != 0
  {
  }

  /** The expiry of a timer, apart from the interrupt: what it is armed for next and where its comparator goes. */
  ghost predicate Expired(t: Timer, after: Timer, tick: nat) {
    if t.Periodic() && t.period != 0 then
      && FirstMatch(t.cmp, t.period, tick, t.Narrow(), after.cmp)
      && (Behind(t.cmp, tick, t.Narrow()) && t.period < Half(t.Narrow()) ==>
            Ahead(after.cmp, tick, t.Narrow()) < t.period)
      && after == t.(cmp := after.cmp, armed := Delay(TicksToNs(Diff(after.cmp, tick, t.Narrow()))))
    else if t.Narrow() && !t.Periodic() && t.wrapFlag then
      after == t.(wrapFlag := false, armed := Delay(TicksToNs(Diff(t.cmp, tick, true))))
    else after == t
  }

  /** The callback returns: the one case in which the source's loop does not end is excluded. */
  predicate Returns(t: Timer, tick: nat) {
    t.Periodic() && t.period != 0 && Behind(t.cmp, tick, t.Narrow()) ==> t.period % Modulus(t.Narrow()) != 0
  }

  // ---- The device --------------------------------------------------------------------------------------

  class Device {
    const timers: array<Timer>
    /** The capability bits of every timer, fixed at power-on. */
    const capabilities: bv16
    const routes: nat
    var config: bv16
    /** The timers whose interrupt status bit is set. */
    var isr: set<nat>
    var offset: nat
    var held: nat

    /**
     Over all register writes and callbacks: the capability bits stay as they were at power-on, and an interrupt
     status bit is set only while both its timer and the HPET are enabled.
     */
    ghost predicate Valid()
      reads this, timers
    {
      && timers.Length == 3
      && held < TWO_64
      && ReadOnly(capabilities) == capabilities
      && (forall i :: 0 <= i < 3 ==> Capable(timers[i]))
      && (forall i :: i in isr ==> i < 3 && timers[i].Enabled() && Enabled())
    }

    predicate Capable(t: Timer) {
      t.Valid() && ReadOnly(t.config) == capabilities && t.upper == routes
    }

    predicate Enabled()
      reads this
    {
      Has(config, CFG_ENABLE)
    }

    function Counter(): MainCounter
      reads this
    {
      MainCounter(Enabled(), offset, held)
    }

    method UpdateIrq(i: nat, raise: bool)
      requires timers.Length == 3 && i < 3
      modifies this`isr
      ensures if !raise || !timers[i].Enabled() || !Enabled() then isr == old(isr) - {i}
              else if Has(timers[i].config, TN_FSB_ENABLE) then isr == old(isr)
              else if Has(timers[i].config, TN_TYPE_LEVEL) then isr == old(isr) + {i}
              else isr == old(isr) - {i}
    {
      var t := timers[i];
      if !raise || !t.Enabled() || !Enabled() {
        isr := isr - {i};
      } else if !Has(t.config, TN_FSB_ENABLE) {
        isr := if Has(t.config, TN_TYPE_LEVEL) then isr + {i} else isr - {i};
      }
    }

    method SetTimer(i: nat, now: nat)
      requires Valid() && i < 3
      modifies timers
      ensures Valid()
      ensures timers[..] == old(timers[..])[i := ArmedAt(old(timers[i]), CounterAt(now, offset))]
    {
      var t := Armable(timers[i], CounterAt(now, offset));
      timers[i] := t;
    }

    /** The timer armed at a tick, step by step. */
    static method Armable(timer: Timer, curTick: nat) returns (t: Timer)
      ensures t == ArmedAt(timer, curTick)
      ensures t.config == timer.config && t.upper == timer.upper && t.cmp == timer.cmp && t.period == timer.period
    {
      t := timer.(wrapFlag := false);
      var diff := Diff(t.cmp, curTick, t.Narrow());
      if t.Narrow() && !t.Periodic() {
        var wrapDiff := WrapDistance(curTick);
        if wrapDiff < diff {
          diff := wrapDiff;
          t := t.(wrapFlag := true);
        }
      }
      t := t.(armed := Delay(TicksToNs(diff)));
    }

    method DelTimer(i: nat)
      requires timers.Length == 3 && i < 3
      modifies this`isr, timers
      ensures timers[..] == old(timers[..])[i := old(timers[i]).(armed := Stopped)] && isr == old(isr) - {i}
    {
      timers[i] := timers[i].(armed := Stopped);
      UpdateIrq(i, false);
    }

    /** The expiry callback. */
    method Expire(i: nat, now: nat)
      requires Valid() && i < 3 && Returns(timers[i], CounterAt(now, offset))
      modifies this`isr, timers
      ensures Valid()
      ensures Expired(old(timers[i]), timers[i], CounterAt(now, offset))
      ensures forall j :: 0 <= j < 3 && j != i ==> timers[j] == old(timers[j])
      ensures i in isr <==>
                timers[i].Enabled() && Enabled() &&
                if Has(timers[i].config, TN_FSB_ENABLE) then i in old(isr)
                else Has(timers[i].config, TN_TYPE_LEVEL)
    {
      var t := timers[i];
      var curTick := CounterAt(now, offset);
      if t.Periodic() && t.period != 0 {
        var cmp := CatchUp(t.cmp, t.period, curTick, t.Narrow());
        timers[i] := t.(cmp := cmp, armed := Delay(TicksToNs(Diff(cmp, curTick, t.Narrow()))));
      } else if t.Narrow() && !t.Periodic() {
        if t.wrapFlag {
          timers[i] := t.(wrapFlag := false, armed := Delay(TicksToNs(Diff(t.cmp, curTick, true))));
        }
      }
      UpdateIrq(i, true);
    }

    method WriteTimerConfig(i: nat, value: bv16, now: nat)
      requires Valid() && i < 3
      modifies this`isr, timers
      ensures Valid()
      ensures timers[i].config == FixupReg(value, old(timers[i].config), TN_CFG_WRITE_MASK)
      ensures timers[i].cmp == (if Has(value, TN_32BIT) then old(timers[i].cmp) % TWO_32 else old(timers[i].cmp))
      ensures timers[i].period == (if Has(value, TN_32BIT) then old(timers[i].period) % TWO_32
                                   else old(timers[i].period))
      ensures forall j :: 0 <= j < 3 && j != i ==> timers[j] == old(timers[j])
      ensures !old(timers[i].Enabled()) && Has(value, TN_ENABLE) && Enabled() ==>
                timers[i] == ArmedAt(timers[i], CounterAt(now, offset))
      ensures old(timers[i].Enabled()) && !Has(value, TN_ENABLE) ==> timers[i].armed == Stopped && i !in isr
      ensures old(timers[i].Enabled()) == Has(value, TN_ENABLE) || (!old(timers[i].Enabled()) && !Enabled()) ==>
                timers[i].armed == old(timers[i].armed) && timers[i].wrapFlag == old(timers[i].wrapFlag)
      ensures isr == if (!Has(old(timers[i].config), TN_FSB_ENABLE) && Has(value, TN_FSB_ENABLE))
                        || (old(timers[i].Enabled()) && !Has(value, TN_ENABLE)) then old(isr) - {i} else old(isr)
    {
      var t := timers[i];
      if !Has(t.config, TN_FSB_ENABLE) && Has(value, TN_FSB_ENABLE) {
        UpdateIrq(i, false);
      }
      WritableBits(value, t.config);
      timers[i] := t.(config := FixupReg(value, t.config, TN_CFG_WRITE_MASK));
      if Has(value, TN_32BIT) {
        timers[i] := timers[i].(cmp := t.cmp % TWO_32, period := t.period % TWO_32);
      }
      if !t.Enabled() && Has(value, TN_ENABLE) && Enabled() {
        SetTimer(i, now);
      } else if t.Enabled() && !Has(value, TN_ENABLE) {
        DelTimer(i);
      }
    }

    /** The timer stored without its write-once bit. */
    method Store(i: nat, t: Timer)
      requires Valid() && i < 3 && t.Valid() && t.config == timers[i].config && t.upper == routes
      modifies timers
      ensures Valid() && timers[..] == old(timers[..])[i := t.(config := ClearSetval(t.config))]
    {
      SetvalCleared(t.config);
      SetvalEnable(t.config);
      timers[i] := t.(config := ClearSetval(t.config));
    }

    /** The end of a comparator write. */
    method Rearm(i: nat, t: Timer, now: nat)
      requires Valid() && i < 3 && t.Valid() && t.config == timers[i].config && t.upper == routes
      modifies timers
      ensures Valid()
      ensures timers[..] == old(timers[..])[i := Rearmed(t, Enabled(), CounterAt(now, offset))]
    {
      Store(i, t);
      if Enabled() {
        SetTimer(i, now);
      }
    }

    method WriteComparator(i: nat, value: nat, now: nat)
      requires Valid() && i < 3 && value < TWO_32
      modifies timers
      ensures Valid()
      ensures timers[..] == old(timers[..])[i :=
                Rearmed(ComparatorWritten(old(timers[i]), value), Enabled(), CounterAt(now, offset))]
    {
      var t := LowWords(timers[i], value);
      Rearm(i, t, now);
    }

    /** The low word of the comparator, of the period, or of both. */
    static method LowWords(timer: Timer, value: nat) returns (t: Timer)
      requires timer.Valid() && value < TWO_32
      ensures t == ComparatorWritten(timer, value)
      ensures t.Valid() && t.config == timer.config && t.upper == timer.upper
    {
      t := timer;
      if !t.Periodic() || Has(t.config, TN_SETVAL) {
        t := t.(cmp := t.cmp / TWO_32 * TWO_32 + value);
      }
      if t.Periodic() {
        t := t.(period := t.period / TWO_32 * TWO_32 + Clamped(t, value));
      }
    }

    method WriteComparatorHigh(i: nat, value: nat, now: nat)
      requires Valid() && i < 3 && value < TWO_32
      modifies timers
      ensures Valid()
      ensures timers[..] == old(timers[..])[i :=
                Rearmed(HighComparatorWritten(old(timers[i]), value), Enabled(), CounterAt(now, offset))]
    {
      var t := timers[i];
      if !t.Periodic() || Has(t.config, TN_SETVAL) {
        t := t.(cmp := t.cmp % TWO_32 + value * TWO_32);
      } else {
        t := t.(period := t.period % TWO_32 + Clamped(t, value) * TWO_32);
      }
      Rearm(i, t, now);
    }

    method ArmAll(now: nat)
      requires Valid()
      modifies timers
      ensures Valid()
      ensures forall i :: 0 <= i < 3 ==>
                timers[i] == if old(timers[i]).cmp == NEVER then old(timers[i])
                             else ArmedAt(old(timers[i]), CounterAt(now, offset))
    {
      for i := 0 to 3
        invariant Valid()
        invariant forall j :: i <= j < 3 ==> timers[j] == old(timers[j])
        invariant forall j :: 0 <= j < i ==>
                    timers[j] == if old(timers[j]).cmp == NEVER then old(timers[j])
                                 else ArmedAt(old(timers[j]), CounterAt(now, offset))
      {
        if timers[i].cmp != NEVER {
          SetTimer(i, now);
        }
      }
    }

    method StopAll()
      requires timers.Length == 3 && isr <= {0, 1, 2}
      modifies this`isr, timers
      ensures isr == {}
      ensures forall i :: 0 <= i < 3 ==> timers[i] == old(timers[i]).(armed := Stopped)
    {
      for i := 0 to 3
        invariant forall j :: i <= j < 3 ==> timers[j] == old(timers[j])
        invariant forall j :: 0 <= j < i ==> timers[j] == old(timers[j]).(armed := Stopped)
        invariant forall j :: j in isr ==> i <= j < 3
      {
        DelTimer(i);
      }
      assert isr == {};
    }

    /** Starting or halting the main counter, with every timer armed or stopped along with it. */
    method WriteConfig(value: bv16, now: nat)
      requires Valid()
      modifies this, timers
      ensures Valid()
      ensures config == FixupReg(value, old(config), CFG_WRITE_MASK)
      ensures Counter() == Switched(old(Counter()), Has(value, CFG_ENABLE), now)
      ensures !old(Enabled()) && Enabled() ==>
                isr == {} && forall i :: 0 <= i < 3 ==>
                  timers[i] == if old(timers[i]).cmp == NEVER then old(timers[i])
                               else ArmedAt(old(timers[i]), CounterAt(now, offset))
      ensures old(Enabled()) && !Enabled() ==>
                isr == {} && forall i :: 0 <= i < 3 ==> timers[i] == old(timers[i]).(armed := Stopped)
      ensures old(Enabled()) == Enabled() ==> timers[..] == old(timers[..]) && isr == old(isr)
    {
      var oldConfig := config;
      EnableBit(value, oldConfig);
      config := FixupReg(value, oldConfig, CFG_WRITE_MASK);
      if !Has(oldConfig, CFG_ENABLE) && Has(value, CFG_ENABLE) {
        assert isr == {};
        var ticks := TicksToNs(held);
        if now > ticks {
          offset := 0;
        } else {
          offset := ticks - now;
        }
        ArmAll(now);
      } else if Has(oldConfig, CFG_ENABLE) && !Has(value, CFG_ENABLE) {
        held := CounterAt(now, offset);
        StopAll();
      }
    }

    /** Writing ones to status bits clears them. */
    method WriteStatus(bits: set<nat>)
      requires Valid()
      modifies this`isr
      ensures Valid() && isr == old(isr) - bits
    {
      var pending := bits * isr;
      for i := 0 to 3
        invariant isr == old(isr) - set j | j in pending && j < i
      {
        if i in pending {
          UpdateIrq(i, false);
        }
      }
    }

    method WriteCounter(value: nat, high: bool)
      requires Valid() && value < TWO_32
      modifies this`held
      ensures Valid()
      ensures Counter() == CounterWritten(old(Counter()), value, high)
    {
      held := if high then held % TWO_32 + value * TWO_32 else held / TWO_32 * TWO_32 + value;
    }

    method Reset()
      requires Valid()
      modifies this, timers
      ensures Valid() && isr == {} && !Enabled() && held == offset == 0
      ensures forall i :: 0 <= i < 3 ==> timers[i] == Timer(capabilities, routes, NEVER, 0, false, Stopped)
    {
      StopAll();
      for i := 0 to 3
        invariant isr == {}
        invariant forall j :: 0 <= j < i ==> timers[j] == Timer(capabilities, routes, NEVER, 0, false, Stopped)
      {
        timers[i] := Timer(capabilities, routes, NEVER, 0, false, Stopped);
      }
      held, offset, config := 0, 0, 0;
    }

    /** Power-on: periodic and 64-bit capable timers, with the interrupt routes of the platform. */
    constructor (routes: nat)
      ensures Valid() && fresh(timers) && isr == {} && !Enabled()
      ensures capabilities == 0x30 && this.routes == routes
    {
      var idle := Timer(0x30, routes, NEVER, 0, false, Stopped);
      assert ReadOnly(0x30) == 0x30;
      capabilities := 0x30;
      this.routes := routes;
      timers := new Timer[3](_ => idle);
      config, isr, offset, held := 0, {}, 0, 0;
    }
  }

  // ---- The main counter over whole runs ----------------------------------------------------------------

  datatype MainCounter = MainCounter(enabled: bool, offset: nat, held: nat) {
    function Reading(now: nat): nat {
      if enabled then CounterAt(now, offset) else held
    }
  }

  /** A halted counter stands at the value it had. */
  lemma HaltHolds(c: MainCounter, now: nat, later: nat)
    requires c.enabled
    ensures !Switched(c, false, now).enabled && Switched(c, false, now).Reading(later) == c.Reading(now)
  {
  }

  /** Half of the counter is written: the halted value, whether or not the counter is running. */
  function CounterWritten(c: MainCounter, value: nat, high: bool): MainCounter {
    c.(held := if high then c.held % TWO_32 + value * TWO_32 else c.held / TWO_32 * TWO_32 + value)
  }

  /** The enable bit is written. */
  function Switched(c: MainCounter, enable: bool, now: nat): MainCounter {
    if !c.enabled && enable then
      var ticks := TicksToNs(c.held);
      c.(enabled := true, offset := if now > ticks then 0 else ticks - now)
    else if c.enabled && !enable then c.(enabled := false, held := CounterAt(now, c.offset))
    else c
  }

  /**
   A counter that is started again resumes where it was halted exactly when the host clock has not passed the halted
   value by a whole tick; later than that it jumps ahead, to the tick of the host clock.
   */
  lemma ResumesExactly(c: MainCounter, now: nat)
    requires !c.enabled && c.held * CLK_PERIOD < TWO_64 && now < TWO_64
    ensures Switched(c, true, now).Reading(now) == c.held <==> now < c.held * CLK_PERIOD + CLK_PERIOD
    ensures Switched(c, true, now).Reading(now) >= c.held
  {
    TickOf(now, c.held);
    TickOf(c.held * CLK_PERIOD, c.held);
  }

  lemma TickOf(now: nat, held: nat)
    ensures NsToTicks(now) == held <==> held * CLK_PERIOD <= now < held * CLK_PERIOD + CLK_PERIOD
    ensures held * CLK_PERIOD <= now ==> NsToTicks(now) >= held
  {
  }

  /**
   A halted counter takes a value written in two halves, in either order, and starts from it exactly if the host clock
   has not passed that value by a whole tick.
   */
  lemma WrittenCounterStarts(c: MainCounter, low: nat, high: nat, now: nat)
    requires !c.enabled && c.held < TWO_64 && low < TWO_32 && high < TWO_32
    ensures var value, w := high * TWO_32 + low, CounterWritten(CounterWritten(c, low, false), high, true);
            && w == CounterWritten(CounterWritten(c, high, true), low, false)
            && w.Reading(now) == value
            && (value * CLK_PERIOD < TWO_64 && now < TWO_64 ==>
                  (Switched(w, true, now).Reading(now) == value <==> now < value * CLK_PERIOD + CLK_PERIOD))
  {
    var value, w := high * TWO_32 + low, CounterWritten(CounterWritten(c, low, false), high, true);
    HalvesJoin(c.held, low, high);
    if value * CLK_PERIOD < TWO_64 && now < TWO_64 {
      ResumesExactly(w, now);
    }
  }

  lemma HalvesJoin(held: nat, low: nat, high: nat)
    requires low < TWO_32 && held < TWO_64
    ensures (held / TWO_32 * TWO_32 + low) % TWO_32 == low
    ensures (held % TWO_32 + high * TWO_32) / TWO_32 == high
  {
  }

  /** A write to a running counter is lost: it is neither read back nor there once the counter is halted. */
  lemma WriteWhileRunningLost(c: MainCounter, value: nat, high: bool, now: nat)
    requires c.enabled
    ensures var w := CounterWritten(c, value, high);
            w.Reading(now) == c.Reading(now) && Switched(w, false, now) == Switched(c, false, now)
  {
  }

  datatype Access = Enable | Disable | Read

  datatype Event = Event(access: Access, delay: nat)

  datatype Timed = Timed(counter: MainCounter, now: nat) {
    function Reading(): nat {
      counter.Reading(now)
    }
  }

  function Step(t: Timed, e: Event): Timed {
    var now := t.now + e.delay;
    Timed(match e.access
          case Enable => Switched(t.counter, true, now)
          case Disable => Switched(t.counter, false, now)
          case Read => t.counter,
          now)
  }

  /** The event happens before 64-bit times overflow. */
  predicate InRange(t: Timed, e: Event) {
    var now := t.now + e.delay;
    && now + t.counter.offset < TWO_64
    && t.counter.held * CLK_PERIOD < TWO_64
  }

  lemma StepMonotone(t: Timed, e: Event)
    requires InRange(t, e)
    ensures Step(t, e).Reading() >= t.Reading()
  {
    TimePasses(t.counter, t.now, t.now + e.delay);
    match e.access {
      case Enable =>
        if !t.counter.enabled {
          ResumesExactly(t.counter, t.now + e.delay);
        }
      case _ =>
    }
  }

  lemma TimePasses(c: MainCounter, now: nat, later: nat)
    requires now <= later && later + c.offset < TWO_64
    ensures c.Reading(now) <= c.Reading(later)
  {
  }

  /**
   Without guest writes to the counter, and before 64-bit times overflow, the counter never reads less than before,
   across any sequence of enabling, disabling and reading.
   */
  lemma CounterMonotone(t: Timed, events: seq<Event>)
    requires Lawful(Step, InRange, t, events)
    ensures Fold(Step, t, events).Reading() >= t.Reading()
  {
    var first := t.Reading();
    var inv := (t: Timed) => t.Reading() >= first;
    forall t, e | inv(t) && InRange(t, e)
      ensures inv(Step(t, e))
    {
      StepMonotone(t, e);
    }
    LawfulKeeps(Step, inv, InRange, t, events);
  }
}
