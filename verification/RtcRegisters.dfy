/** What the bits and values of the MC146818 registers mean, in the terms of its data sheet. */
module RtcRegisters {
  import opened Basics
  import opened RtcArithmetic
  import opened RtcCalendar
  import opened Rtc

  // ---- Setting the date and the time -------------------------------------------------------------------

  predicate Encodes(regs: seq<Byte>, day: nat, year: nat)
    requires |regs| == 128
  {
    var b := regs[REG_B];
    regs[DAY_OF_MONTH] == ToByte(ToBcd(b, day)) && regs[YEAR] == ToByte(ToBcd(b, year))
  }

  /** The day and the year the guest writes are those of the internal date, and copying them back changes neither. */
  lemma DateSet(regs: seq<Byte>, day: nat, year: nat)
    requires |regs| == 128 && 1 <= day <= 31 && year < 100 && Encodes(regs, day, year)
    ensures TimeSet(regs).day == day && TimeSet(regs).year == year
    ensures var copied := DateCopied(regs, TimeSet(regs));
            copied[DAY_OF_MONTH] == regs[DAY_OF_MONTH] && copied[YEAR] == regs[YEAR]
  {
    RegisterRoundTrip(regs[REG_B], day);
    RegisterRoundTrip(regs[REG_B], year);
    YearBack(year);
    assert DateCopied(regs, TimeSet(regs))[YEAR] == ToByte(ToBcd(regs[REG_B], (year - BASE_YEAR) % 100));
  }

  lemma YearBack(year: nat)
    requires year < 100
    ensures (year - BASE_YEAR) % 100 == year
  {
  }

  /** The time of day the guest writes is the internal one, and copying it back changes no register. */
  lemma TimeOfDaySet(regs: seq<Byte>, hour: nat, minute: nat, second: nat)
    requires |regs| == 128 && hour < 24 && minute < 60 && second < 60
    requires var b := regs[REG_B];
             && regs[HOURS] == EncodeHour(b, hour)
             && regs[MINUTES] == ToByte(ToBcd(b, minute)) && regs[SECONDS] == ToByte(ToBcd(b, second))
    ensures TimeOfDay(TimeSet(regs)) == (hour, minute, second)
    ensures var copied := DateCopied(regs, TimeSet(regs));
            && copied[HOURS] == regs[HOURS] && copied[MINUTES] == regs[MINUTES] && copied[SECONDS] == regs[SECONDS]
  {
    HourRoundTrip(regs[REG_B], hour);
    RegisterRoundTrip(regs[REG_B], minute);
    RegisterRoundTrip(regs[REG_B], second);
  }

  // ---- Formats -----------------------------------------------------------------------------------------

  /** Two decimal digits in one byte. */
  function Digits(value: nat): nat {
    value / 10 * 16 + value % 10
  }

  /**
   The four formats of the hour register: bit 2 of register B selects binary, bit 1 the 24-hour form, and in the
   12-hour forms bit 7 of the hour is the afternoon.
   */
  lemma HourFormats(b: Byte, hour: nat)
    requires hour < 24
    ensures var value := if b / 2 % 2 == 1 then hour else hour % 12;
            EncodeHour(b, hour) == (if b / 4 % 2 == 1 then value else Digits(value))
                                   + (if b / 2 % 2 == 0 && hour >= 12 then 128 else 0)
  {
    var value := if b / 2 % 2 == 1 then hour else hour % 12;
    RegisterRoundTrip(b, value);
    TwoDigits(value / 10, value % 10);
    AfternoonFlag(ToByte(ToBcd(b, value)));
  }

  // ---- Alarms ------------------------------------------------------------------------------------------

  /** An alarm register with both high bits set matches any value. */
  lemma AlarmDontCare(b: Byte, alarm: Byte, value: int)
    requires alarm >= 0xc0
    ensures AlarmMatches(b, alarm, value)
  {
  }

  /** An alarm set for a second or a minute goes off at that one and no other. */
  lemma AlarmAt(b: Byte, at: nat, value: int)
    requires at < 60
    ensures AlarmMatches(b, ToByte(ToBcd(b, at)), value) <==> value == at
  {
    RegisterRoundTrip(b, at);
  }

  /**
   An alarm set for an hour goes off at that hour and no other - but in the 12-hour formats one set for the afternoon
   never does: the alarm is compared without taking the afternoon bit apart.
   */
  lemma AlarmHour(b: Byte, at: nat, value: int)
    requires at < 24 && 0 <= value < 24
    ensures AlarmMatches(b, EncodeHour(b, at), value) <==> value == at && (b / 2 % 2 == 1 || at < 12)
  {
    if b / 2 % 2 == 1 || at < 12 {
      assert EncodeHour(b, at) == ToByte(ToBcd(b, at));
      AlarmAt(b, at, value);
    } else {
      HourFormats(b, at);
      AfternoonAlarm(b, at % 12, value);
    }
  }

  /** The alarm registers hold a time of day. */
  predicate AlarmSet(regs: seq<Byte>, hour: nat, minute: nat, second: nat)
    requires |regs| == 128 && hour < 24 && minute < 60 && second < 60
  {
    var b := regs[REG_B];
    regs[5] == EncodeHour(b, hour) && regs[3] == ToByte(ToBcd(b, minute)) && regs[1] == ToByte(ToBcd(b, second))
  }

  /**
   An enabled alarm goes off at the time of day it is set for and at no other - or never, if that is in the afternoon
   and the format is a 12-hour one.
   */
  lemma AlarmGoesOff(regs: seq<Byte>, tm: Tm, hour: nat, minute: nat, second: nat)
    requires |regs| == 128 && tm.ValidTime() && hour < 24 && minute < 60 && second < 60
    requires AlarmSet(regs, hour, minute, second)
    ensures Alarm(regs, tm) <==>
              && Bit(regs[REG_B], 0x20)
              && TimeOfDay(tm) == (hour, minute, second)
              && (regs[REG_B] / 2 % 2 == 1 || hour < 12)
  {
    AlarmAt(regs[REG_B], second, tm.second);
    AlarmAt(regs[REG_B], minute, tm.minute);
    AlarmHour(regs[REG_B], hour, tm.hour);
  }

  lemma AfternoonAlarm(b: Byte, twelve: nat, value: int)
    requires twelve < 12 && value < 24
    ensures !AlarmMatches(b, 128 + twelve, value) && !AlarmMatches(b, 128 + Digits(twelve), value)
  {
  }

  // ---- Interrupt flags ---------------------------------------------------------------------------------

  /** Setting one flag sets its bit and leaves the others. */
  lemma FlagSet(x: Byte, mask: nat, other: nat)
    requires mask in FLAGS && other in FLAGS
    ensures Bit(With(x, mask), other) <==> other == mask || Bit(x, other)
  {
    FlagBits(x, x / 128, x / 64 % 2, x / 32 % 2, x / 16 % 2, x % 16);
    if !Bit(x, mask) {
      FlagAdded(x, mask, x / 128, x / 64 % 2, x / 32 % 2, x / 16 % 2, x % 16);
    }
  }

  lemma FlagBits(x: nat, a: nat, b: nat, c: nat, d: nat, e: nat)
    requires a < 2 && b < 2 && c < 2 && d < 2 && e < 16
    requires x == 128 * a + 64 * b + 32 * c + 16 * d + e
    ensures (Bit(x, 0x80) <==> a == 1) && (Bit(x, 0x40) <==> b == 1)
    ensures (Bit(x, 0x20) <==> c == 1) && (Bit(x, 0x10) <==> d == 1)
  {
    assert x / 128 == a;
    assert x / 64 == 2 * a + b;
    assert x / 32 == 4 * a + 2 * b + c;
    assert x / 16 == 8 * a + 4 * b + 2 * c + d;
  }

  /** The flags of a byte with one more. */
  lemma FlagAdded(x: nat, mask: nat, a: nat, b: nat, c: nat, d: nat, e: nat)
    requires mask in FLAGS && !Bit(x, mask)
    requires a < 2 && b < 2 && c < 2 && d < 2 && e < 16
    requires x == 128 * a + 64 * b + 32 * c + 16 * d + e
    ensures forall other :: other in FLAGS ==> (Bit(x + mask, other) <==> other == mask || Bit(x, other))
  {
    FlagBits(x, a, b, c, d, e);
    FlagBits(x + mask, if mask == 0x80 then 1 else a, if mask == 0x40 then 1 else b, if mask == 0x20 then 1 else c,
             if mask == 0x10 then 1 else d, e);
  }

  lemma FlagCleared(x: Byte, mask: nat, other: nat)
    requires mask in FLAGS && other in FLAGS
    ensures Bit(Without(x, mask), other) <==> other != mask && Bit(x, other)
  {
    var a, b, c, d, e := x / 128, x / 64 % 2, x / 32 % 2, x / 16 % 2, x % 16;
    FlagBits(x, a, b, c, d, e);
    if Bit(x, mask) {
      FlagBits(x - mask, if mask == 0x80 then 0 else a, if mask == 0x40 then 0 else b, if mask == 0x20 then 0 else c,
               if mask == 0x10 then 0 else d, e);
    }
  }

  /**
   Register C at the end of an update: the update flag 0x10 is set; the alarm flag 0x20 is set if the alarm went off;
   the interrupt flag 0x80 if that, or an update with its interrupt enabled, asks for one; and the periodic flag 0x40
   is as it was.
   */
  lemma UpdateFlags(regs: seq<Byte>, tm: Tm)
    requires |regs| == 128
    ensures var before, after := regs[REG_C], Flagged(regs, tm);
            && Bit(after, 0x10)
            && (Bit(after, 0x20) <==> Bit(before, 0x20) || Alarm(regs, tm))
            && (Bit(after, 0x80) <==> Bit(before, 0x80) || Alarm(regs, tm) || Bit(regs[REG_B], 0x10))
            && (Bit(after, 0x40) <==> Bit(before, 0x40))
  {
    var c := regs[REG_C];
    var c1 := if Alarm(regs, tm) then With(With(c, IRQF), AF) else c;
    forall other | other in FLAGS
      ensures Bit(c1, other) <==> Bit(c, other) || (Alarm(regs, tm) && other in {0x80, 0x20})
    {
      FlagSet(c, IRQF, other);
      FlagSet(With(c, IRQF), AF, other);
    }
    forall other | other in FLAGS
      ensures Bit(Flagged(regs, tm), other)
              <==> Bit(c1, other) || other == 0x10 || (other == 0x80 && Bit(regs[REG_B], UIE))
    {
      FlagSet(c1, UF, other);
      FlagSet(With(c1, UF), IRQF, other);
    }
  }

  /** The end of an update raises the interrupt line exactly if it sets the interrupt flag. */
  lemma UpdateRaisesLine(c: Clock)
    requires c.WellFormed() && !Bit(c.regs[REG_C], IRQF)
    ensures SecondEnded(c).irqLine <==> c.irqLine || Bit(SecondEnded(c).regs[12], 0x80)
  {
    UpdateFlags(if c.SetMode() then c.regs else DateCopied(c.regs, c.tm), c.tm);
  }

  /** A periodic callback with its interrupt enabled sets the periodic and the interrupt flag and raises the line. */
  lemma PeriodicFlags(c: Clock)
    requires c.WellFormed()
    ensures var before, after := c.regs[REG_C], PeriodicFired(c).regs[REG_C];
            && (Bit(after, 0x40) <==> Bit(before, 0x40) || Bit(c.regs[REG_B], 0x40))
            && (Bit(after, 0x80) <==> Bit(before, 0x80) || Bit(c.regs[REG_B], 0x40))
            && (Bit(after, 0x20) <==> Bit(before, 0x20)) && (Bit(after, 0x10) <==> Bit(before, 0x10))
            && (PeriodicFired(c).irqLine <==> c.irqLine || Bit(c.regs[REG_B], 0x40) || Bit(c.regs[REG_B], 0x08))
  {
    var x := c.regs[REG_C];
    forall other | other in FLAGS
      ensures Bit(With(With(x, IRQF), PF), other) <==> Bit(x, other) || other in {0x80, 0x40}
    {
      FlagSet(x, IRQF, other);
      FlagSet(With(x, IRQF), PF, other);
    }
  }

  /** Reading register C returns its flags, clears all of them and drops the line; no other read changes anything. */
  lemma ReadAcknowledges(c: Clock)
    requires c.WellFormed()
    ensures ReadOut(c).0 == c.regs[c.index]
    ensures var after := ReadOut(c).1;
            if c.index == 12 then
              after.regs[12] == 0 && !after.irqLine && after.tm == c.tm
              && forall i :: 0 <= i < 128 && i != 12 ==> after.regs[i] == c.regs[i]
            else after == c
  {
  }

  // ---- Control registers -------------------------------------------------------------------------------

  /** The update-in-progress bit is read only, registers C and D are, and the time is not touched by either. */
  lemma WriteProtected(c: Clock, data: nat)
    requires c.WellFormed() && data < 256
    ensures c.index == 10 ==>
              && (Bit(Written(c, data).regs[10], 0x80) <==> Bit(c.regs[10], 0x80))
              && Written(c, data).regs[10] % 128 == data % 128
              && Written(c, data).tm == c.tm
    ensures c.index in {12, 13} ==> Written(c, data) == c
  {
  }

  /** Any other register but register B takes what is written, and no other register does. */
  lemma WriteStores(c: Clock, data: nat)
    requires c.WellFormed() && data < 256 && !(10 <= c.index < 14)
    ensures Written(c, data).regs == c.regs[c.index := data]
    ensures c.index in {1, 3, 5} || c.index >= 14 ==> Written(c, data).tm == c.tm
  {
  }

  /** Entering set mode ends an update in progress and disables the update-ended interrupt, and keeps the rest. */
  lemma EnterSetMode(c: Clock, data: nat)
    requires c.WellFormed() && data < 256 && c.index == 11 && Bit(data, 0x80)
    ensures var after := Written(c, data);
            && after.SetMode() && !after.InProgress() && after.tm == c.tm
            && !Bit(after.regs[11], 0x10)
            && (Bit(after.regs[11], 0x40) <==> Bit(data, 0x40)) && (Bit(after.regs[11], 0x20) <==> Bit(data, 0x20))
            && after.regs[11] % 16 == data % 16
            && after.regs[10] % 128 == c.regs[10] % 128
  {
    FlagCleared(data, UIE, 0x80);
    FlagCleared(data, UIE, 0x40);
    FlagCleared(data, UIE, 0x20);
    FlagCleared(data, UIE, 0x10);
    FlagCleared(c.regs[10], UIP, 0x80);
    ClearedRest(c.regs[10], data);
  }

  lemma ClearedRest(a: Byte, data: Byte)
    ensures Without(a, 0x80) % 128 == a % 128 && Without(data, 0x10) % 16 == data % 16
  {
  }

  /** The clock runs exactly while the divider bits of register A are 010; the power-on value 0x26 has them. */
  lemma OscillatorCodes(regs: seq<Byte>)
    requires |regs| == 128
    ensures OscillatorOn(regs) <==> 0x20 <= regs[10] % 128 < 0x30
    ensures regs[10] == 0x26 ==> OscillatorOn(regs)
  {
  }

  /** While they select anything else the date stands still, and the next second is looked at a second later. */
  lemma OscillatorOff(c: Clock)
    requires c.WellFormed() && !OscillatorOn(c.regs)
    ensures SecondStarted(c) == c.(nextSecond := c.nextSecond + 1000000000)
  {
  }

  /** The periodic interrupt rates of the data sheet, in hertz, by the rate code of register A. */
  const RATES: seq<nat> := [0, 256, 128, 8192, 4096, 2048, 1024, 512, 256, 128, 64, 32, 16, 8, 4, 2]

  lemma RateTable(code: nat)
    requires 0 < code < 16
    ensures Period(code) * RATES[code] == 32768
  {
    assert PowerOfTwo(4) == 16;
    assert PowerOfTwo(8) == 256;
    assert PowerOfTwo(12) == 4096;
  }
}
