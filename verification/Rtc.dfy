/**
 The register file of the MC146818 emulation: four time formats, the two-phase update cycle, set mode, and the
 guest's port accesses between them.
 */
module Rtc {
  import opened Basics
  import opened Chains
  import opened RtcArithmetic
  import opened RtcCalendar

  const SECONDS := 0
  const SECONDS_ALARM := 1
  const MINUTES := 2
  const MINUTES_ALARM := 3
  const HOURS := 4
  const HOURS_ALARM := 5
  const DAY_OF_WEEK := 6
  const DAY_OF_MONTH := 7
  const MONTH := 8
  const YEAR := 9
  const REG_A := 10
  const REG_B := 11
  const REG_C := 12
  const REG_D := 13

  const UIP := 0x80
  const SET := 0x80
  const PIE := 0x40
  const AIE := 0x20
  const UIE := 0x10
  const SQWE := 0x08
  const DM := 0x04
  const H24 := 0x02

  const UF := 0x10
  const AF := 0x20
  const PF := 0x40
  const IRQF := 0x80

  const BASE_YEAR := 1900

  const FLAGS: set<nat> := {0x80, 0x40, 0x20, 0x10}

  function With(x: Byte, mask: nat): Byte
    requires mask in FLAGS
  {
    if Bit(x, mask) then x else x + mask
  }

  function Without(x: Byte, mask: nat): Byte
    requires mask in FLAGS
  {
    if Bit(x, mask) then x - mask else x
  }

  // ---- Register formats --------------------------------------------------------------------------------

  /** The month register can make the month -1; the shift and mask leave a negative single digit as it is. */
  function ToBcd(b: nat, a: int): int {
    if Bit(b, DM) || -10 < a < 0 then a else a / 10 * 16 + a % 10
  }

  function FromBcd(b: nat, a: nat): nat {
    if Bit(b, DM) then a else a / 16 * 10 + a % 16
  }

  function ToByte(a: int): Byte {
    a % 256
  }

  function EncodeHour(b: nat, hour: int): Byte {
    if Bit(b, H24) then ToByte(ToBcd(b, hour))
    else if hour >= 12 then With(ToByte(ToBcd(b, hour % 12)), 0x80)
    else ToByte(ToBcd(b, hour % 12))
  }

  function DecodeHour(b: nat, reg: nat): nat {
    FromBcd(b, reg % 128) + if !Bit(b, H24) && Bit(reg, 0x80) then 12 else 0
  }

  /** In every format a register holds any value below 100. */
  lemma RegisterRoundTrip(b: nat, value: nat)
    requires value < 100
    ensures FromBcd(b, ToByte(ToBcd(b, value))) == value
    ensures value < 60 ==> ToByte(ToBcd(b, value)) < 128
  {
    TwoDigits(value / 10, value % 10);
  }

  lemma TwoDigits(tens: nat, units: nat)
    requires tens < 10 && units < 10
    ensures var bcd := tens * 16 + units;
            ToByte(bcd) == bcd && bcd / 16 == tens && bcd % 16 == units && (tens < 6 ==> bcd < 128)
  {
  }

  /** The afternoon flag on a register value that leaves room for it. */
  lemma AfternoonFlag(x: Byte)
    requires x < 128
    ensures !Bit(x, 0x80) && x % 128 == x
    ensures With(x, 0x80) == x + 128 && Bit(x + 128, 0x80) && (x + 128) % 128 == x
  {
  }

  /** The hour register holds the hours of a day; in the 12-hour formats it holds nothing else. */
  lemma HourRoundTrip(b: nat, hour: nat)
    ensures hour < 24 ==> DecodeHour(b, EncodeHour(b, hour)) == hour
    ensures !Bit(b, H24) && hour >= 24 ==> DecodeHour(b, EncodeHour(b, hour)) != hour
  {
    var value := if Bit(b, H24) then hour else hour % 12;
    if value < 24 {
      RegisterRoundTrip(b, value);
      AfternoonFlag(ToByte(ToBcd(b, value)));
    }
  }

  /** The hour a 12-hour register means in the data sheet: 1 to 12, with 12 before 1. */
  function DataSheetHour(twelve: nat, pm: bool): nat {
    twelve % 12 + if pm then 12 else 0
  }

  /**
   The 12-hour registers the code understands are those of the data sheet except at twelve o'clock: 12 am reads as
   noon and 12 pm as hour 24.
   */
  lemma TwelveOClock(b: nat, twelve: nat, pm: bool)
    requires !Bit(b, H24) && 1 <= twelve <= 12
    ensures var reg := TwelveHour(b, twelve, pm);
            && (DecodeHour(b, reg) == DataSheetHour(twelve, pm) <==> twelve != 12)
            && (twelve == 12 ==> DecodeHour(b, reg) == if pm then 24 else 12)
  {
    RegisterRoundTrip(b, twelve);
    AfternoonFlag(ToByte(ToBcd(b, twelve)));
  }

  /** The register the data sheet has for an hour from 1 to 12. */
  function TwelveHour(b: nat, twelve: nat, pm: bool): nat {
    ToByte(ToBcd(b, twelve)) + if pm then 0x80 else 0
  }

  /** The hours shown are likewise those of the data sheet except around noon and midnight, where a 0 is shown. */
  lemma TwelveOClockShown(b: nat, hour: nat)
    requires !Bit(b, H24) && hour < 24
    ensures EncodeHour(b, hour) == TwelveHour(b, hour % 12, hour >= 12)
    ensures EncodeHour(b, hour) == TwelveHour(b, if hour % 12 == 0 then 12 else hour % 12, hour >= 12)
            <==> hour % 12 != 0
  {
    RegisterRoundTrip(b, hour % 12);
    RegisterRoundTrip(b, 12);
    AfternoonFlag(ToByte(ToBcd(b, hour % 12)));
  }

  // ---- What each access does ---------------------------------------------------------------------------

  /** Which of the two second timers is set: the one that starts an update or the one that ends it. */
  datatype Phase = Waiting | Updating

  datatype Clock = Clock(regs: seq<Byte>, index: nat, tm: Tm, phase: Phase, nextSecond: nat, irqLine: bool) {
    predicate WellFormed() {
      |regs| == 128 && index < 128
    }

    predicate SetMode()
      requires WellFormed()
    {
      Bit(regs[REG_B], SET)
    }

    predicate InProgress()
      requires WellFormed()
    {
      Bit(regs[REG_A], UIP)
    }
  }

  /** The time of day the registers show. */
  function Shown(regs: seq<Byte>): (int, int, int)
    requires |regs| == 128
  {
    (DecodeHour(regs[REG_B], regs[HOURS]), FromBcd(regs[REG_B], regs[MINUTES]), FromBcd(regs[REG_B], regs[SECONDS]))
  }

  function TimeOfDay(tm: Tm): (int, int, int) {
    (tm.hour, tm.minute, tm.second)
  }

  predicate RealTime(t: (int, int, int)) {
    0 <= t.0 < 24 && 0 <= t.1 < 60 && 0 <= t.2 < 60
  }

  function TimeSet(regs: seq<Byte>): Tm
    requires |regs| == 128
  {
    var b := regs[REG_B];
    Tm(FromBcd(b, regs[SECONDS]), FromBcd(b, regs[MINUTES]), DecodeHour(b, regs[HOURS]),
       FromBcd(b, regs[DAY_OF_MONTH]), FromBcd(b, regs[MONTH]) - 1, FromBcd(b, regs[YEAR]) + BASE_YEAR - 1900)
  }

  function DateCopied(regs: seq<Byte>, tm: Tm): (r: seq<Byte>)
    requires |regs| == 128
    ensures |r| == 128
  {
    var b := regs[REG_B];
    regs[SECONDS := ToByte(ToBcd(b, tm.second))]
        [MINUTES := ToByte(ToBcd(b, tm.minute))]
        [HOURS := EncodeHour(b, tm.hour)]
        [DAY_OF_MONTH := ToByte(ToBcd(b, tm.day))]
        [MONTH := ToByte(ToBcd(b, tm.month))]
        [YEAR := ToByte(ToBcd(b, (tm.year - BASE_YEAR) % 100))]
  }

  predicate IsTime(index: nat) {
    index in {SECONDS, MINUTES, HOURS, DAY_OF_WEEK, DAY_OF_MONTH, MONTH, YEAR}
  }

  /** The value that ends up in register B: entering set mode disables the update-ended interrupt. */
  function NewB(data: Byte): Byte {
    if Bit(data, SET) then Without(data, UIE) else data
  }

  predicate FormatChanges(b: nat, data: nat) {
    Bit(b, DM) != Bit(data, DM) || Bit(b, H24) != Bit(data, H24)
  }

  /** A write to the data port. */
  function Written(c: Clock, data: nat): Clock
    requires c.WellFormed() && data < 256
  {
    var i, regs := c.index, c.regs;
    if IsTime(i) then
      var regs1 := regs[i := data];
      c.(regs := regs1, tm := if c.SetMode() then c.tm else TimeSet(regs1))
    else if i == REG_A then c.(regs := regs[REG_A := data % 128 + if c.InProgress() then 128 else 0])
    else if i == REG_B then WrittenB(c, data)
    else if i == REG_C || i == REG_D then c
    else c.(regs := regs[i := data])
  }

  function WrittenB(c: Clock, data: nat): Clock
    requires c.WellFormed() && data < 256
  {
    var regs1 := c.regs[REG_B := NewB(data)];
    if Bit(data, SET) then c.(regs := regs1[REG_A := Without(c.regs[REG_A], UIP)])
    else
      var tm := if c.SetMode() then TimeSet(c.regs) else c.tm;
      c.(tm := tm, regs := if FormatChanges(c.regs[REG_B], data) then DateCopied(regs1, tm) else regs1)
  }

  /** A read of the data port; reading register C acknowledges the interrupt. */
  function ReadOut(c: Clock): (nat, Clock)
    requires c.WellFormed()
  {
    (c.regs[c.index], if c.index == REG_C then c.(regs := c.regs[REG_C := 0], irqLine := false) else c)
  }

  predicate OscillatorOn(regs: seq<Byte>)
    requires |regs| == 128
  {
    regs[REG_A] / 16 % 8 == 2
  }

  /** The first second timer: the time moves on and the update is announced. */
  function SecondStarted(c: Clock): Clock
    requires c.WellFormed()
  {
    if !OscillatorOn(c.regs) then c.(nextSecond := c.nextSecond + TICKS_PER_SEC)
    else c.(tm := NextSecond(c.tm), phase := Updating,
            regs := if c.SetMode() then c.regs else c.regs[REG_A := With(c.regs[REG_A], UIP)])
  }

  predicate AlarmMatches(b: nat, alarm: nat, value: int) {
    alarm / 64 % 4 == 3 || FromBcd(b, alarm) == value
  }

  predicate Alarm(regs: seq<Byte>, tm: Tm)
    requires |regs| == 128
  {
    var b := regs[REG_B];
    && Bit(b, AIE)
    && AlarmMatches(b, regs[SECONDS_ALARM], tm.second)
    && AlarmMatches(b, regs[MINUTES_ALARM], tm.minute)
    && AlarmMatches(b, regs[HOURS_ALARM], tm.hour)
  }

  /** Register C at the end of an update. */
  function Flagged(regs: seq<Byte>, tm: Tm): nat
    requires |regs| == 128
  {
    var c1 := if Alarm(regs, tm) then With(With(regs[REG_C], IRQF), AF) else regs[REG_C];
    var c2 := With(c1, UF);
    if Bit(regs[REG_B], UIE) then With(c2, IRQF) else c2
  }

  /** The second second timer: the registers follow and the update ends. */
  function SecondEnded(c: Clock): Clock
    requires c.WellFormed()
  {
    var regs := if c.SetMode() then c.regs else DateCopied(c.regs, c.tm);
    c.(regs := regs[REG_C := Flagged(regs, c.tm)][REG_A := Without(regs[REG_A], UIP)],
       irqLine := c.irqLine || Alarm(regs, c.tm) || Bit(regs[REG_B], UIE),
       phase := Waiting, nextSecond := c.nextSecond + TICKS_PER_SEC)
  }

  function PeriodicFired(c: Clock): Clock
    requires c.WellFormed()
  {
    var b := c.regs[REG_B];
    c.(regs := if Bit(b, PIE) then c.regs[REG_C := With(With(c.regs[REG_C], IRQF), PF)] else c.regs,
       irqLine := c.irqLine || Bit(b, PIE) || Bit(b, SQWE))
  }

  // ---- The emulation -----------------------------------------------------------------------------------

  class Device {
    const cmosData: array<Byte>
    var cmosIndex: nat
    var currentTm: Tm
    var nextSecondTime: nat
    var phase: Phase
    var irqLine: bool
    var nextPeriodicTime: int
    var periodicArmed: bool

    ghost predicate Valid()
      reads this, cmosData
    {
      cmosData.Length == 128 && View().WellFormed()
    }

    ghost function View(): Clock
      reads this, cmosData
    {
      Clock(cmosData[..], cmosIndex, currentTm, phase, nextSecondTime, irqLine)
    }

    /** Power-on: 24-hour BCD, the host's date, and the first update already due to end. */
    constructor (host: Tm, now: nat)
      ensures Valid() && fresh(cmosData)
      ensures currentTm == host && nextSecondTime == now + TICKS_PER_SEC * 99 / 100
      ensures cmosData[REG_A] == 0x26 && OscillatorOn(cmosData[..])
      ensures host.ValidTime() ==> Inv(View()) && Shown(cmosData[..]) == TimeOfDay(host)
    {
      cmosData := new Byte[128](_ => 0);
      cmosIndex, currentTm, phase, irqLine := 0, host, Updating, false;
      nextSecondTime := now + TICKS_PER_SEC * 99 / 100;
      nextPeriodicTime, periodicArmed := 0, false;
      new;
      cmosData[REG_A], cmosData[REG_B], cmosData[REG_C], cmosData[REG_D] := 0x26, 0x02, 0x00, 0x80;
      SetDateFromHost();
    }

    /** The date registers and the two century bytes. */
    method SetDateFromHost()
      requires Valid()
      modifies cmosData
      ensures Valid() && forall i :: REG_A <= i <= REG_D ==> cmosData[i] == old(cmosData[i])
      ensures currentTm.ValidTime() ==> Shown(cmosData[..]) == TimeOfDay(currentTm)
      ensures cmosData[0x32] == cmosData[0x37] == ToByte(ToBcd(cmosData[REG_B], currentTm.year / 100 + 19))
    {
      CopyDate();
      if currentTm.ValidTime() {
        DateCopiedShows(old(cmosData[..]), currentTm);
      }
      ghost var copied := cmosData[..];
      var century := ToByte(ToBcd(cmosData[REG_B], currentTm.year / 100 + 19));
      cmosData[0x32] := century;
      cmosData[0x37] := century;
      assert Shown(cmosData[..]) == Shown(copied);
    }

    method SetTime()
      requires Valid()
      modifies this`currentTm
      ensures View() == old(View()).(tm := TimeSet(old(cmosData[..])))
    {
      var b := cmosData[REG_B];
      var hour := FromBcd(b, cmosData[HOURS] % 128);
      if !Bit(b, H24) && Bit(cmosData[HOURS], 0x80) {
        hour := hour + 12;
      }
      currentTm := Tm(FromBcd(b, cmosData[SECONDS]), FromBcd(b, cmosData[MINUTES]), hour,
                      FromBcd(b, cmosData[DAY_OF_MONTH]), FromBcd(b, cmosData[MONTH]) - 1,
                      FromBcd(b, cmosData[YEAR]) + BASE_YEAR - 1900);
    }

    method CopyDate()
      requires Valid()
      modifies cmosData
      ensures View() == old(View()).(regs := DateCopied(old(cmosData[..]), currentTm))
    {
      var b := cmosData[REG_B];
      cmosData[SECONDS] := ToByte(ToBcd(b, currentTm.second));
      cmosData[MINUTES] := ToByte(ToBcd(b, currentTm.minute));
      if Bit(b, H24) {
        cmosData[HOURS] := ToByte(ToBcd(b, currentTm.hour));
      } else {
        cmosData[HOURS] := ToByte(ToBcd(b, currentTm.hour % 12));
        if currentTm.hour >= 12 {
          cmosData[HOURS] := With(cmosData[HOURS], 0x80);
        }
      }
      cmosData[DAY_OF_MONTH] := ToByte(ToBcd(b, currentTm.day));
      cmosData[MONTH] := ToByte(ToBcd(b, currentTm.month));
      cmosData[YEAR] := ToByte(ToBcd(b, (currentTm.year - BASE_YEAR) % 100));
    }

    /** The calendar step, field by field in place. */
    method StepSecond()
      modifies this`currentTm
      ensures currentTm == NextSecond(old(currentTm))
    {
      currentTm := currentTm.(second := currentTm.second + 1);
      if Wraps(currentTm.second, 60) {
        currentTm := currentTm.(second := 0, minute := currentTm.minute + 1);
        if Wraps(currentTm.minute, 60) {
          currentTm := currentTm.(minute := 0, hour := currentTm.hour + 1);
          if Wraps(currentTm.hour, 24) {
            var daysInMonth := DaysInMonth(currentTm.month, currentTm.year + 1900);
            currentTm := currentTm.(hour := 0, day := currentTm.day + 1);
            if currentTm.day < 1 {
              currentTm := currentTm.(day := 1);
            } else if currentTm.day > daysInMonth {
              currentTm := currentTm.(day := 1, month := currentTm.month + 1);
              if currentTm.month >= 12 {
                currentTm := currentTm.(month := 0, year := currentTm.year + 1);
              }
            }
          }
        }
      }
    }

    predicate PeriodicOn()
      requires cmosData.Length == 128
      reads this, cmosData
    {
      cmosData[REG_A] % 16 != 0 && Bit(cmosData[REG_B], PIE)
    }

    function CurrentPeriod(): nat
      requires cmosData.Length == 128 && PeriodicOn()
      reads this, cmosData
    {
      Period(cmosData[REG_A] % 16)
    }

    /** The timer is on exactly if a rate is selected and its callbacks flag an interrupt. */
    lemma PeriodicOnIff()
      requires Valid()
      ensures var fired := PeriodicFired(View().(regs := cmosData[..][REG_C := 0]));
              PeriodicOn() <==> cmosData[REG_A] % 16 != 0 && Bit(fired.regs[REG_C], PF) && Bit(fired.regs[REG_C], IRQF)
    {
    }

    /** Programming the periodic timer; the clock has not reached the end of its 64-bit range. */
    method TimerUpdate(now: nat)
      requires Valid() && now + TICKS_PER_SEC < TWO_63
      modifies this`nextPeriodicTime, this`periodicArmed
      ensures periodicArmed == PeriodicOn()
      ensures PeriodicOn() ==> nextPeriodicTime == NextPeriodicTime(now, CurrentPeriod())
    {
      if PeriodicOn() {
        var period := CurrentPeriod();
        ClockTickComputed(now);
        var curClock := MulDiv64(now, CLOCK_HZ, TICKS_PER_SEC);
        MaskRounds(curClock, PeriodShift(cmosData[REG_A] % 16));
        var nextIrqClock := ClearLow(curClock, PeriodShift(cmosData[REG_A] % 16)) + period;
        TickTimeComputed(nextIrqClock);
        nextPeriodicTime := MulDiv64(nextIrqClock, TICKS_PER_SEC, CLOCK_HZ) + 1;
        periodicArmed := true;
      } else {
        periodicArmed := false;
      }
    }

    /** The periodic callback reprograms from the scheduled time: callback k of the chain leads to callback k + 1. */
    method PeriodicTimer()
      requires Valid() && 0 <= nextPeriodicTime < TWO_63 - TICKS_PER_SEC
      modifies this`nextPeriodicTime, this`periodicArmed, this`irqLine, cmosData
      ensures Valid() && View() == PeriodicFired(old(View()))
      ensures periodicArmed == PeriodicOn()
      ensures PeriodicOn() ==>
                forall start: nat, k: nat ::
                  old(nextPeriodicTime) == PeriodicTime(start, CurrentPeriod(), k) ==>
                  nextPeriodicTime == PeriodicTime(start, CurrentPeriod(), k + 1)
    {
      TimerUpdate(nextPeriodicTime);
      if Bit(cmosData[REG_B], PIE) {
        cmosData[REG_C] := With(With(cmosData[REG_C], IRQF), PF);
        irqLine := true;
      }
      if Bit(cmosData[REG_B], SQWE) {
        irqLine := true;
      }
    }

    method WriteRegisterB(data: nat)
      requires Valid() && data < 256
      modifies this`currentTm, cmosData
      ensures Valid() && View() == WrittenB(old(View()), data)
    {
      var value := data;
      if Bit(data, SET) {
        cmosData[REG_A] := Without(cmosData[REG_A], UIP);
        value := Without(data, UIE);
      } else if Bit(cmosData[REG_B], SET) {
        SetTime();
      }
      if FormatChanges(cmosData[REG_B], value) && !Bit(value, SET) {
        cmosData[REG_B] := value;
        CopyDate();
      } else {
        cmosData[REG_B] := value;
      }
    }

    method IoportWrite(addr: nat, data: nat, now: nat)
      requires Valid() && data < 256 && now + TICKS_PER_SEC < TWO_63
      modifies this`cmosIndex, this`currentTm, this`nextPeriodicTime, this`periodicArmed, cmosData
      ensures Valid()
      ensures View() == if addr % 2 == 0 then old(View()).(index := data % 128) else Written(old(View()), data)
      ensures if addr % 2 == 1 && cmosIndex in {REG_A, REG_B} then
                && periodicArmed == PeriodicOn()
                && (PeriodicOn() ==> nextPeriodicTime == NextPeriodicTime(now, CurrentPeriod()))
              else periodicArmed == old(periodicArmed) && nextPeriodicTime == old(nextPeriodicTime)
    {
      if addr % 2 == 0 {
        cmosIndex := data % 128;
      } else if IsTime(cmosIndex) {
        cmosData[cmosIndex] := data;
        if !Bit(cmosData[REG_B], SET) {
          SetTime();
        }
      } else if cmosIndex == REG_A {
        cmosData[REG_A] := data % 128 + if Bit(cmosData[REG_A], UIP) then 128 else 0;
        TimerUpdate(now);
      } else if cmosIndex == REG_B {
        WriteRegisterB(data);
        TimerUpdate(now);
      } else if cmosIndex != REG_C && cmosIndex != REG_D {
        cmosData[cmosIndex] := data;
      }
    }

    method IoportRead(addr: nat) returns (ret: nat)
      requires Valid()
      modifies this`irqLine, cmosData
      ensures Valid()
      ensures if addr % 2 == 0 then ret == 0xff && View() == old(View()) else (ret, View()) == ReadOut(old(View()))
    {
      if addr % 2 == 0 {
        return 0xff;
      }
      ret := cmosData[cmosIndex];
      if cmosIndex == REG_C {
        irqLine := false;
        cmosData[REG_C] := 0;
      }
    }

    method UpdateSecond()
      requires Valid()
      modifies this`currentTm, this`phase, this`nextSecondTime, cmosData
      ensures Valid() && View() == SecondStarted(old(View()))
    {
      if cmosData[REG_A] / 16 % 8 != 2 {
        nextSecondTime := nextSecondTime + TICKS_PER_SEC;
      } else {
        StepSecond();
        if !Bit(cmosData[REG_B], SET) {
          cmosData[REG_A] := With(cmosData[REG_A], UIP);
        }
        phase := Updating;
      }
    }

    /** The alarm, against the time and not the registers. */
    method CheckAlarm()
      requires Valid()
      modifies this`irqLine, cmosData
      ensures var alarm := Alarm(old(cmosData[..]), currentTm);
              && irqLine == (old(irqLine) || alarm)
              && cmosData[..] == if alarm then old(cmosData[..])[REG_C := With(With(old(cmosData[REG_C]), IRQF), AF)]
                                 else old(cmosData[..])
    {
      var b := cmosData[REG_B];
      if Bit(b, AIE) {
        if && AlarmMatches(b, cmosData[SECONDS_ALARM], currentTm.second)
           && AlarmMatches(b, cmosData[MINUTES_ALARM], currentTm.minute)
           && AlarmMatches(b, cmosData[HOURS_ALARM], currentTm.hour)
        {
          cmosData[REG_C] := With(With(cmosData[REG_C], IRQF), AF);
          irqLine := true;
        }
      }
    }

    /** The update-ended flag, and the end of the update. */
    method EndUpdate()
      requires Valid()
      modifies this`irqLine, cmosData
      ensures var ui := Bit(old(cmosData[REG_B]), UIE);
              && irqLine == (old(irqLine) || ui)
              && cmosData[..] ==
                 old(cmosData[..])[REG_C := if ui then With(With(old(cmosData[REG_C]), UF), IRQF)
                                            else With(old(cmosData[REG_C]), UF)]
                                  [REG_A := Without(old(cmosData[REG_A]), UIP)]
    {
      cmosData[REG_C] := With(cmosData[REG_C], UF);
      if Bit(cmosData[REG_B], UIE) {
        cmosData[REG_C] := With(cmosData[REG_C], IRQF);
        irqLine := true;
      }
      cmosData[REG_A] := Without(cmosData[REG_A], UIP);
    }

    method UpdateSecond2()
      requires Valid()
      modifies this`irqLine, this`phase, this`nextSecondTime, cmosData
      ensures Valid() && View() == SecondEnded(old(View()))
    {
      if !Bit(cmosData[REG_B], SET) {
        CopyDate();
      }
      ghost var regs := cmosData[..];
      CheckAlarm();
      EndUpdate();
      phase := Waiting;
      nextSecondTime := nextSecondTime + TICKS_PER_SEC;
      assert cmosData[..] == regs[REG_C := Flagged(regs, currentTm)][REG_A := Without(regs[REG_A], UIP)];
    }
  }

  // ---- Runs --------------------------------------------------------------------------------------------

  datatype Event = Select(index: nat) | Write(data: nat) | Read | StartSecond | EndSecond | Periodic

  function Step(c: Clock, e: Event): Clock {
    if !c.WellFormed() then c
    else match e
      case Select(index) => c.(index := index % 128)
      case Write(data) => Written(c, data % 256)
      case Read => ReadOut(c).1
      case StartSecond => SecondStarted(c)
      case EndSecond => SecondEnded(c)
      case Periodic => PeriodicFired(c)
  }

  /** What the guest and the timers may do next: registers that take effect show a real time of day. */
  predicate Law(c: Clock, e: Event) {
    c.WellFormed() &&
    match e
    case Write(data) => GuestLaw(c, data % 256)
    case StartSecond => c.phase == Waiting
    case EndSecond => c.phase == Updating
    case _ => true
  }

  predicate GuestLaw(c: Clock, data: nat)
    requires c.WellFormed() && data < 256
  {
    if IsTime(c.index) then c.SetMode() || RealTime(Shown(c.regs[c.index := data]))
    else c.index == REG_B && c.SetMode() && !Bit(data, SET) ==> RealTime(Shown(c.regs))
  }

  /**
   Set mode and an update in progress exclude each other, an update is announced only between the two timers, a
   pending interrupt holds the line, and outside both the registers show the time of day.
   */
  predicate Inv(c: Clock) {
    && c.WellFormed()
    && c.tm.ValidTime()
    && (c.SetMode() ==> !c.InProgress())
    && (c.InProgress() ==> c.phase == Updating)
    && (!c.SetMode() && !c.InProgress() ==> Shown(c.regs) == TimeOfDay(c.tm))
    && (Bit(c.regs[REG_C], IRQF) ==> c.irqLine)
  }

  lemma DateCopiedShows(regs: seq<Byte>, tm: Tm)
    requires |regs| == 128 && tm.ValidTime()
    ensures Shown(DateCopied(regs, tm)) == TimeOfDay(tm)
  {
    var b := regs[REG_B];
    RegisterRoundTrip(b, tm.second);
    RegisterRoundTrip(b, tm.minute);
    HourRoundTrip(b, tm.hour);
  }

  lemma WriteKeeps(c: Clock, data: nat)
    requires Inv(c) && data < 256 && GuestLaw(c, data)
    ensures Inv(Written(c, data))
  {
    if c.index == REG_B {
      WriteBKeeps(c, data);
    }
  }

  lemma WriteBKeeps(c: Clock, data: nat)
    requires Inv(c) && data < 256
    requires c.SetMode() && !Bit(data, SET) ==> RealTime(Shown(c.regs))
    ensures Inv(WrittenB(c, data))
  {
    if Bit(data, SET) {
      SetModeEntered(c, data);
    } else {
      SetModeLeft(c, data);
    }
  }

  lemma SetModeEntered(c: Clock, data: nat)
    requires Inv(c) && data < 256 && Bit(data, SET)
    ensures Inv(WrittenB(c, data))
    ensures WrittenB(c, data).SetMode() && !WrittenB(c, data).InProgress()
  {
    assert Bit(NewB(data), SET);
    assert !Bit(Without(c.regs[REG_A], UIP), UIP);
  }

  lemma SetModeLeft(c: Clock, data: nat)
    requires Inv(c) && data < 256 && !Bit(data, SET)
    requires c.SetMode() ==> RealTime(Shown(c.regs))
    ensures Inv(WrittenB(c, data))
  {
    var tm := if c.SetMode() then TimeSet(c.regs) else c.tm;
    var regs := c.regs[REG_B := data];
    if FormatChanges(c.regs[REG_B], data) {
      DateCopiedShows(regs, tm);
    } else {
      SameFormat(c.regs, data);
    }
  }

  /** Registers show the same time under any two values of register B with the same format bits. */
  lemma SameFormat(regs: seq<Byte>, data: Byte)
    requires |regs| == 128 && !FormatChanges(regs[REG_B], data)
    ensures Shown(regs[REG_B := data]) == Shown(regs)
  {
  }

  /** Only an alarm or an enabled update interrupt adds the interrupt flag, and either raises the line. */
  lemma FlagsRaiseLine(regs: seq<Byte>, tm: Tm)
    requires |regs| == 128
    ensures Bit(Flagged(regs, tm), IRQF) ==> Bit(regs[REG_C], IRQF) || Alarm(regs, tm) || Bit(regs[REG_B], UIE)
  {
  }

  lemma UpdateCleared(a: Byte)
    ensures !Bit(Without(a, UIP), UIP)
  {
  }

  lemma EndSecondKeeps(c: Clock)
    requires Inv(c)
    ensures Inv(SecondEnded(c))
  {
    var regs := if c.SetMode() then c.regs else DateCopied(c.regs, c.tm);
    var regC, regA := Flagged(regs, c.tm), Without(regs[REG_A], UIP);
    assert !Bit(regA, UIP) by {
      UpdateCleared(regs[REG_A]);
    }
    assert Bit(regC, IRQF) ==> SecondEnded(c).irqLine by {
      FlagsRaiseLine(regs, c.tm);
    }
    assert !c.SetMode() ==> Shown(SecondEnded(c).regs) == TimeOfDay(c.tm) by {
      DateCopiedShows(c.regs, c.tm);
      FlagsHidden(regs, regC, regA);
    }
  }

  /** The time shown does not depend on registers A and C. */
  lemma FlagsHidden(regs: seq<Byte>, regC: Byte, regA: Byte)
    requires |regs| == 128
    ensures Shown(regs[REG_C := regC][REG_A := regA]) == Shown(regs)
  {
  }

  lemma StepKeeps(c: Clock, e: Event)
    requires Inv(c) && Law(c, e)
    ensures Inv(Step(c, e))
  {
    match e {
      case Write(data) => WriteKeeps(c, data % 256);
      case EndSecond => EndSecondKeeps(c);
      case _ =>
    }
  }

  /**
   Over every interleaving of lawful guest accesses and timer callbacks the invariant holds: in particular the
   hour, minute and second registers show the internal time in whichever of the four formats is selected, whenever
   neither set mode nor an update hides it, and set mode implies that no update is in progress.
   */
  lemma RegistersAgree(c: Clock, events: seq<Event>)
    requires Inv(c) && Lawful(Step, Law, c, events)
    ensures Inv(Fold(Step, c, events))
  {
    forall t, e | Inv(t) && Law(t, e)
      ensures Inv(Step(t, e))
    {
      StepKeeps(t, e);
    }
    LawfulKeeps(Step, Inv, Law, c, events);
  }

  /**
   The date registers after a copy: day and year agree with the internal date.  The month register does not agree
   with what the guest wrote: setting the date takes 1 off the month and copying does not put it back, so whatever
   month is written comes back one lower.
   */
  lemma DateShown(regs: seq<Byte>, tm: Tm, month: nat)
    requires |regs| == 128 && tm.Valid() && 1 <= month <= 12
    ensures var b, shown := regs[REG_B], DateCopied(regs, tm);
            && FromBcd(b, shown[DAY_OF_MONTH]) == tm.day
            && FromBcd(b, shown[YEAR]) == (tm.year - BASE_YEAR) % 100
    ensures var b := regs[REG_B];
            var written := regs[MONTH := ToByte(ToBcd(b, month))];
            && TimeSet(written).month == month - 1
            && FromBcd(b, DateCopied(written, TimeSet(written))[MONTH]) == month - 1
  {
    var b := regs[REG_B];
    RegisterRoundTrip(b, tm.day);
    RegisterRoundTrip(b, (tm.year - BASE_YEAR) % 100);
    RegisterRoundTrip(b, month);
    RegisterRoundTrip(b, month - 1);
  }

  /** Switching format outside set mode keeps the time of day, and the registers show it in the new format at once. */
  lemma FormatSwitch(c: Clock, data: nat)
    requires Inv(c) && c.index == REG_B && data < 256
    requires !c.SetMode() && !Bit(data, SET) && FormatChanges(c.regs[REG_B], data)
    ensures var after := Written(c, data);
            && after.tm == c.tm
            && after.regs[REG_B] == data
            && Shown(after.regs) == TimeOfDay(c.tm)
  {
    DateCopiedShows(c.regs[REG_B := data], c.tm);
  }

  // ---- The clock runs ----------------------------------------------------------------------------------

  /** One undisturbed second: both timers in turn. */
  function OneSecond(c: Clock): Clock {
    Step(Step(c, StartSecond), EndSecond)
  }

  function Seconds(c: Clock, n: nat): Clock {
    Repeat(OneSecond, c, n)
  }

  predicate Running(c: Clock) {
    Inv(c) && c.phase == Waiting && OscillatorOn(c.regs) && !c.SetMode()
  }

  lemma OneSecondRuns(c: Clock)
    requires Running(c)
    ensures var d := OneSecond(c);
            && Running(d)
            && d.tm == NextSecond(c.tm)
            && Shown(d.regs) == TimeOfDay(d.tm)
            && d.nextSecond == c.nextSecond + TICKS_PER_SEC
  {
    StepKeeps(c, StartSecond);
    StepKeeps(Step(c, StartSecond), EndSecond);
  }

  /** What n undisturbed cycles lead from c to. */
  predicate SecondsLater(c: Clock, d: Clock, n: nat) {
    Running(d) && d.tm == Advance(c.tm, n) && d.nextSecond == c.nextSecond + n * TICKS_PER_SEC
  }

  lemma CyclesRun(c: Clock, n: nat)
    requires Running(c)
    ensures SecondsLater(c, Seconds(c, n), n)
  {
    var inv := (d: Clock, k: nat) => SecondsLater(c, d, k);
    forall d, k: nat | inv(d, k)
      ensures inv(OneSecond(d), k + 1)
    {
      CycleRuns(c, d, k);
    }
    RepeatKeeps(OneSecond, inv, c, n);
  }

  lemma CycleRuns(c: Clock, d: Clock, n: nat)
    requires SecondsLater(c, d, n)
    ensures SecondsLater(c, OneSecond(d), n + 1)
  {
    OneSecondRuns(d);
  }

  /**
   Left alone with the oscillator on, n update cycles move a valid date and time exactly n seconds on, the
   registers show the result, and the next update is due exactly n seconds later than before.
   */
  lemma ClockRuns(c: Clock, n: nat)
    requires Running(c) && c.tm.Valid()
    ensures var d := Seconds(c, n);
            && Inv(d)
            && d.tm.Valid() && AbsoluteSecond(d.tm) == AbsoluteSecond(c.tm) + n
            && Shown(d.regs) == TimeOfDay(d.tm)
            && d.nextSecond == c.nextSecond + n * TICKS_PER_SEC
  {
    CyclesRun(c, n);
    AdvanceCounts(c.tm, n);
  }
}
