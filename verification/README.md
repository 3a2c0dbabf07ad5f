# Device models and connectors of the CAmkES virtual machine monitor

This project models seven stateful parts of the virtual machine monitor and of the components around it, and proves
properties of them that hold over whole runs:

- the 8254 interval timer (`PitTiming`, `PitRuns`, `PitEdges`, `Pit`): time conversion, edge prediction and the chain
  of timer callbacks that feeds on its own predictions, and the latches and byte sequencing of the port interface;
- the MC146818 real-time clock (`RtcArithmetic`, `RtcCalendar`, `Rtc`, `RtcRegisters`): the 96-bit multiply and
  divide, the drift-free periodic timer, the Gregorian calendar, and the register file with its four time formats and
  two-phase update;
- the HPET (`HpetTimer`, `HpetRuns`, `Hpet`, `HpetWrites`): modular comparisons, the catch-up loop, the 32-bit wrap,
  the counter that halts and restarts, and the register writes;
- the 16550A serial port (`SerialQueue`, `SerialTransmit`, `SerialFifo`, `Serial`): the throttled transmitter, the
  ring FIFOs, the interrupt priority encoder and the flow-controlled input;
- the SATA partition server (`SataDisks`, `SataServer`, `SataRequests`): per-client virtual disks on one shared disk;
- the UDP receive connector and its client (`UdpQueue`, `UdpReceive`): two lists in one array and a signal/poll
  protocol;
- the console ring between two virtual machines (`SharedRing`, `ConsoleRing`).

`Chains` holds the induction principles for runs, `Division` facts about division by a variable and `Basics` bytes, words
and lists.

Objects the source updates in place are classes whose methods are proved against functions on the abstract state;
what the code is for is then proved about those functions, over every input and every run. Time is an input of each
operation; interrupt lines, armed timers, output characters, signals and freed packets are recorded in the state.

Where the code does not do what one would expect, the model keeps the code as it is and the condition is exact:

- The rate generator (8254 mode 2) loses the edge of pulse k exactly when k*count or k*count+1 is a multiple of 596591,
  the ticks that start on a whole nanosecond (`PitRuns.RateGeneratorRun`).
- A 12-hour clock register means what the MC146818 data sheet says exactly if it does not hold 12
  (`Rtc.TwelveOClock`, `Rtc.TwelveOClockShown`), and every month the guest writes comes back one lower (`Rtc.DateShown`).
- An alarm set for the afternoon in a 12-hour format never goes off (`RtcRegisters.AlarmGoesOff`).
- The HPET catch-up loop ends exactly if the comparator is not behind or the period is not a multiple of the modulus; a
  32-bit timer can be programmed so that it is (`HpetTimer.CatchUpTerminates`, `Hpet.PeriodOfNarrowTimer`). The callback
  method therefore excludes that one family with `Returns`.
- A halted HPET counter resumes its value exactly if it is restarted before the host clock has passed that value by a
  tick (`Hpet.ResumesExactly`); the IA-PC HPET specification has it always resume.
- A periodic HPET timer that is serviced on time comes twice in each period: at the match, where the comparator does not
  move, and again one tick later (`HpetRuns.NoDrift`).  A counter written while it runs loses the write
  (`Hpet.WriteWhileRunningLost`).
- The serial transmitter conserves whatever byte is written exactly if the FIFO or holding register is not full and the
  FIFO's write position is at the end of its contents (`SerialTransmit.WritesConserveIff`).  One write into a full FIFO
  upsets that for the writes that follow, until the next reset or sixteen overwrites (`SerialTransmit.EveryRun`,
  `SerialTransmit.OverwriteLosesLater`).
- A FIFO reset makes the transmitter send a NUL exactly if bytes waited, and a change of mode likewise one byte in place
  of those that waited (`SerialTransmit.FlushDrains`).
- An interrupt-enable write leaves the interrupt in step exactly if the holding register is empty, a modem change is
  noticed, or the enables agree on what is pending (`Serial.Uart.WriteIer`, `Serial.DataEnableMissed`).
- A SATA write leaves the other clients' disks alone exactly if its whole physical range is clear of their partitions;
  only its first sector is checked (`SataDisks.IsolatedIff`, `SataDisks.IsolationFails`).

## Model

| member | source | states |
|---|---|---|
| `PitTiming.NanosRounding` | components/Init/src/i8254.c:261-268 | A tick converted to nanoseconds and back is itself exactly on the multiples of 596591 and one tick less everywhere else; the conversion is one nanosecond short of the tick's start off that grid. |
| `PitTiming.OneShotCountsDown` | components/Init/src/i8254.c:111-134 | In modes 0, 1, 4 and 5 the readback starts at the count and drops by one per tick through zero, modulo 65536. |
| `PitTiming.RateCountsDown` | components/Init/src/i8254.c:111-134 | In mode 2 the readback runs from the count down to 1 and starts again, for every count. |
| `PitTiming.SquareCountsDown` | components/Init/src/i8254.c:111-134 | In mode 3 with an even count the readback runs down by twos to 2 and starts again. |
| `PitTiming.OutUntilScheduled` | components/Init/src/i8254.c:182-259 | In ticks, outside mode 2: the output is constant before the scheduled tick, which is later than now, and different at it exactly unless a square wave of count 1 is programmed, which is constant for ever; with no scheduled tick it never changes. Which level it has is in PitEdges. |
| `PitTiming.EdgePrediction` | components/Init/src/i8254.c:182-270 | Modes 0, 1, 3, 4, 5: for every count, load time and current time, the output is constant from now up to the returned nanosecond, which is strictly later; -1 means it never changes again. Both floor divisions and the +1 fix-up are composed. |
| `PitTiming.EdgeIsDelivered` | components/Init/src/i8254.c:216-270 | The prediction is tight: the output changes at the returned time or one nanosecond after it, and in the second case a prediction made at the returned time names that nanosecond. The one program it does not hold for, a square wave of count 1, is high at all times. |
| `PitRuns.SquareWaveStep` | components/Init/src/i8254.c:241-268 | Mode 3, count at least 2: from one half-period boundary the self-fed timer reaches the first nanosecond of the next in one callback if that is on the 596591 grid, in two if not, and the extra callback sees the old level. |
| `PitRuns.SquareWaveLands` | components/Init/src/i8254.c:456-489 | Mode 3 over a whole run: the i-th half-period boundary is reached exactly, between callback i and callback 2i, so the k-th rising edge falls in tick k*count with no drift. |
| `PitRuns.SquareWaveLevels` | components/Init/src/i8254.c:456-489 | Mode 3: the level driven by any callback n is the level of the one half period whose landing callback precedes it, high exactly in even half periods. |
| `PitEdges.LineFollowsOutput` | components/Init/src/i8254.c:456-489 | Every mode but 2, over the whole run: at every time after the load the level driven by the last callback is the level of the output at that time. |
| `PitEdges.TurnsIff` | components/Init/src/i8254.c:456-489 | Every mode but 2: some callback turns the line to a level in a tick if and only if the output has that level in the tick and the other one in the tick before. |
| `PitEdges.TerminalCount` | components/Init/src/i8254.c:182-202 | Mode 0 over the whole run: the line is low from the load, rises in tick count and in no other, and never falls. |
| `PitEdges.OneShot` | components/Init/src/i8254.c:182-202 | Mode 1 over the whole run: the line is high from the load, falls in tick count and in no other, and never rises. |
| `PitEdges.Strobe` | components/Init/src/i8254.c:182-211 | Modes 4 and 5 over the whole run: the line is low at the load, rises in tick count and in no other, and falls in the tick after it and in no other. |
| `PitEdges.SquareWaveEdges` | components/Init/src/i8254.c:182-211 | Mode 3 over the whole run: the line is high at the load, rises in exactly the multiples of the count and falls half a period after them, rounded up, and nowhere else. |
| `PitRuns.RateGeneratorStep` | components/Init/src/i8254.c:233-240 | Mode 2: which of one or two callbacks lead from one pulse to the next, and that the intermediate one is low. |
| `PitRuns.RateGeneratorRun` | components/Init/src/i8254.c:233-268 | Mode 2 over a whole run: some callback drives a rising edge in tick k*count if and only if neither k*count nor k*count+1 is a multiple of 596591. |
| `PitRuns.RateGeneratorOnly` | components/Init/src/i8254.c:233-268 | No other rising edge is ever driven: every one is in the tick of a pulse. |
| `PitRuns.LostPulse` | components/Init/src/i8254.c:233-268 | A concrete lost pulse: with a count of 2 no callback of the run drives an edge into tick 596590. |
| `Pit.Device.constructor` | components/Init/src/i8254.c:610-616 | After power-on all channels are square waves of 65536 and the timer is set for the first callback of channel 0's chain. |
| `Pit.Device.IrqTimerUpdate` | components/Init/src/i8254.c:456-482 | Only an enabled channel 0 drives the level of its output and renews the schedule; nothing else of the channel changes. |
| `Pit.Device.IrqTimer` | components/Init/src/i8254.c:484-489 | The callback moves the timer from callback n of the programmed chain to callback n+1 and drives callback n's level, with no reference to the clock. |
| `Pit.Device.LoadCount` | components/Init/src/i8254.c:309-317 | Loading a count drives callback 0's level and sets the timer for callback 1 of the new program. |
| `Pit.Device.LatchCount` | components/Init/src/i8254.c:320-326 | A count already latched is kept; otherwise the current count is latched in 16 bits. |
| `Pit.Device.ReadBack` | components/Init/src/i8254.c:337-359 | The read-back command latches count and status of exactly the selected channels. |
| `Pit.Device.IoportWrite` | components/Init/src/i8254.c:328-394 | A port write changes only the addressed channel; a write that loads channel 0 drives callback 0's level and restarts the chain, and no other write touches line or timer. |
| `Pit.Device.IoportRead` | components/Init/src/i8254.c:396-454 | A data read returns a latched status first, then latched count bytes, then the live count, and changes only the addressed channel. |
| `Pit.RunInStep` | components/Init/src/i8254.c:328-454 | Over every run of control words, read-backs, data writes, reads and expiries the word-access states stay in step with the access mode. |
| `Pit.ControlPrograms` | components/Init/src/i8254.c:360-374 | A control word sets access mode, counting mode and BCD bit from its fields, restarts the byte sequence, and leaves count, load time and latches alone. |
| `Pit.ControlLatches` | components/Init/src/i8254.c:360-374 | A control word without access bits latches the count and does nothing else. |
| `Pit.StatusReadback` | components/Init/src/i8254.c:337-359 | The status byte gives back the six low bits of the control word below the output level at the latch, whatever accesses but reads come between. |
| `Pit.ReadBackLatches` | components/Init/src/i8254.c:337-359 | A read-back word selects the channels it names and latches count and status as its two active-low bits say, each without touching the other. |
| `Pit.ByteWriteLoads` | components/Init/src/i8254.c:376-385 | In single-byte access one write loads the low or the high byte with the other zero, 0 as 65536, whatever reads and latches come before it. |
| `Pit.ByteLatchReadback` | components/Init/src/i8254.c:411-428 | A count latched in single-byte access comes back as the byte selected, in one read. |
| `Pit.LiveRead` | components/Init/src/i8254.c:429-452 | With nothing latched a read gives the running count: its selected byte, or in word access low byte then high byte, each at the time of its own read. |
| `Pit.WordLatchReadback` | components/Init/src/i8254.c:320-326 | A count latched in word mode comes back low byte then high byte whatever happens before and between the reads, short of reading the channel, and however much time passes; a latched status byte comes first. |
| `Pit.WordWriteLoads` | components/Init/src/i8254.c:376-393 | A word write loads exactly low + 256*high, 0 as 65536, at the time of the second byte, whatever reads and latches come between; until then the old count keeps running. |
| `RtcArithmetic.NoOverflow` | components/Init/src/mc146818rtc.c:138-142 | No intermediate of the 96-bit product overflows 64 bits, and its two words make up a*b. |
| `RtcArithmetic.MulDivExact` | components/Init/src/mc146818rtc.c:124-145 | For all 64-bit a and 32-bit b and non-zero c the result is floor(a*b/c) modulo 2^64, hence exact whenever that fits. |
| `RtcArithmetic.MaskRounds` | components/Init/src/mc146818rtc.c:214-215 | Masking the low bits of the clock is rounding down to a multiple of the period. |
| `RtcArithmetic.ScheduledTickExact` | components/Init/src/mc146818rtc.c:213-217 | Converting the scheduled time back to 32768 Hz ticks gives exactly the scheduled tick. |
| `RtcArithmetic.PeriodicLands` | components/Init/src/mc146818rtc.c:193-234 | The k-th periodic callback after programming falls in exactly the k-th next multiple of the period: none skipped, repeated or drifting, for every k. |
| `RtcRegisters.RateTable` | components/Init/src/mc146818rtc.c:193-211 | The period of each rate code is that of the MC146818 data sheet's rate in hertz. |
| `RtcCalendar.NextSecondCounts` | components/Init/src/mc146818rtc.c:401-454 | One calendar step of a valid date and time is valid and exactly one second later in the absolute Gregorian count. |
| `RtcCalendar.AdvanceCounts` | components/Init/src/mc146818rtc.c:421-454 | N steps are N seconds later, for every N. |
| `RtcCalendar.AbsoluteSecondInjective` | components/Init/src/mc146818rtc.c:421-454 | The absolute second determines the date and time, so the count is a faithful reference. |
| `RtcCalendar.AdvanceIsUnique` | components/Init/src/mc146818rtc.c:421-454 | A valid date and time is the result of N steps if and only if it is N seconds later. |
| `RtcCalendar.StepRepairs` | components/Init/src/mc146818rtc.c:421-454 | Whatever the fields hold, a step leaves a second of the minute, carries exactly when it should, and a new day is from 1 to 31. |
| `Rtc.RegisterRoundTrip` | components/Init/src/mc146818rtc.c:333-349 | Every value below 100 survives the register format, BCD or binary. |
| `Rtc.HourRoundTrip` | components/Init/src/mc146818rtc.c:355-384 | Every hour of the day survives all four hour formats, and in the 12-hour formats nothing else does. |
| `Rtc.TwelveOClock` | components/Init/src/mc146818rtc.c:351-369 | 12-hour registers mean what the MC146818 data sheet says if and only if they do not hold 12; 12 am reads as noon and 12 pm as hour 24. |
| `Rtc.TwelveOClockShown` | components/Init/src/mc146818rtc.c:371-384 | The 12-hour registers shown are those of the data sheet if and only if the hour is neither noon nor midnight, where 0 is shown for 12. |
| `RtcRegisters.HourFormats` | components/Init/src/mc146818rtc.c:371-384 | The four hour formats, bit for bit of register B, and the afternoon bit. |
| `RtcRegisters.DateSet` | components/Init/src/mc146818rtc.c:351-369 | Day and year registers set the internal day and year, and copying the date back leaves both registers as written. |
| `RtcRegisters.TimeOfDaySet` | components/Init/src/mc146818rtc.c:351-369 | Hour, minute and second registers set the internal time of day in every format, and copying it back leaves them as written. |
| `RtcRegisters.AlarmGoesOff` | components/Init/src/mc146818rtc.c:493-507 | An enabled alarm goes off at the time of day it is set for and no other, if and only if the format is a 24-hour one or the hour is before noon. |
| `RtcRegisters.AlarmHour` | components/Init/src/mc146818rtc.c:500-502 | The hour part: in a 12-hour format an alarm set for the afternoon matches no hour. |
| `RtcRegisters.AlarmDontCare` | components/Init/src/mc146818rtc.c:495-502 | An alarm register of 0xc0 or more matches every value. |
| `RtcRegisters.UpdateFlags` | components/Init/src/mc146818rtc.c:493-515 | The end of an update sets the update flag, sets the alarm flag exactly if the alarm goes off and the interrupt flag exactly if that or the update interrupt asks for it, and keeps the periodic flag. |
| `RtcRegisters.UpdateRaisesLine` | components/Init/src/mc146818rtc.c:503-515 | The end of an update raises the line exactly if it sets the interrupt flag. |
| `RtcRegisters.PeriodicFlags` | components/Init/src/mc146818rtc.c:230-262 | A periodic callback sets the periodic and interrupt flags exactly if its interrupt is enabled, and raises the line for that or the square wave. |
| `RtcRegisters.ReadAcknowledges` | components/Init/src/mc146818rtc.c:542-565 | Reading register C returns the flags, clears them all and drops the line; other reads change nothing. |
| `RtcRegisters.WriteProtected` | components/Init/src/mc146818rtc.c:292-325 | The update-in-progress bit and registers C and D cannot be written. |
| `RtcRegisters.WriteStores` | components/Init/src/mc146818rtc.c:271-291 | Every other register but B stores what is written and no other changes. |
| `RtcRegisters.EnterSetMode` | components/Init/src/mc146818rtc.c:299-303 | Entering set mode ends an update and clears the update interrupt enable, and no other bit. |
| `RtcRegisters.OscillatorCodes` | components/Init/src/mc146818rtc.c:462 | The clock runs exactly while the divider bits are 010, as they are at power-on. |
| `RtcRegisters.OscillatorOff` | components/Init/src/mc146818rtc.c:462-466 | With other divider bits the date stands still and the next second is looked at a second later. |
| `Rtc.Device.constructor` | components/Init/src/mc146818rtc.c:713-749 | After initialisation the invariant holds and the registers show the host's time. |
| `Rtc.Device.SetTime` | components/Init/src/mc146818rtc.c:351-369 | The internal time is what the registers decode to. |
| `Rtc.Device.CopyDate` | components/Init/src/mc146818rtc.c:371-398 | The registers become the encoding of the internal time, and no other register changes. |
| `Rtc.Device.StepSecond` | components/Init/src/mc146818rtc.c:421-454 | The in-place field updates compute the calendar step. |
| `Rtc.Device.TimerUpdate` | components/Init/src/mc146818rtc.c:193-228 | The periodic timer is set exactly when selected and enabled, for the next multiple of the period. |
| `Rtc.Device.PeriodicOnIff` | components/Init/src/mc146818rtc.c:193-203 | The periodic timer is on exactly if a rate is selected and its callbacks flag an interrupt. |
| `Rtc.Device.PeriodicTimer` | components/Init/src/mc146818rtc.c:230-262 | The callback moves from callback k of the periodic chain to callback k+1 and flags the interrupt if enabled. |
| `Rtc.Device.WriteRegisterB` | components/Init/src/mc146818rtc.c:297-321 | Register B writes: entering set mode ends an update, leaving it takes the time from the registers in the old format, and a format change rewrites them. |
| `Rtc.Device.IoportWrite` | components/Init/src/mc146818rtc.c:264-331 | A port write changes the clock as the register written demands; after registers A and B the periodic timer is set for the next multiple of the period, or stopped, exactly as they select, and no other write touches it. |
| `Rtc.Device.IoportRead` | components/Init/src/mc146818rtc.c:524-575 | Reading returns the selected register; reading register C clears it and drops the interrupt line, and nothing else changes. |
| `Rtc.Device.UpdateSecond` | components/Init/src/mc146818rtc.c:456-483 | The first phase advances the time and announces the update, unless the oscillator is off, and does not touch the time registers. |
| `Rtc.Device.UpdateSecond2` | components/Init/src/mc146818rtc.c:485-522 | The second phase copies the time unless set mode holds the registers, raises alarm and update flags, and ends the update one second on. |
| `Rtc.RegistersAgree` | components/Init/src/mc146818rtc.c:264-522 | Over every interleaving of lawful guest accesses and callbacks: outside set mode and an update the registers show the internal time in all four formats, set mode excludes an update in progress, and a pending interrupt holds the line. |
| `Rtc.FormatSwitch` | components/Init/src/mc146818rtc.c:310-319 | Switching format outside set mode keeps the time of day and shows it in the new format at once. |
| `Rtc.DateShown` | components/Init/src/mc146818rtc.c:364-397 | Day and year registers agree with the internal date; a month written by the guest comes back one lower, for every month. |
| `Rtc.ClockRuns` | components/Init/src/mc146818rtc.c:456-522 | Left alone, n update cycles move the date exactly n seconds on, the registers show it, and the next update is due n seconds later. |
| `HpetTimer.MatchIsMultiple` | components/Init/src/hpet.c:318-325 | The loop's comparators are the original plus the multiples of the period, modulo the width. |
| `HpetTimer.CatchUpTerminates` | components/Init/src/hpet.c:317-326 | The catch-up loop ends if and only if the comparator is not behind or the period is not a multiple of the modulus. |
| `HpetTimer.CatchUp` | components/Init/src/hpet.c:317-326 | The loop returns the first match that is not behind the counter, less than one period ahead if the period is below half the modulus, in 32 and 64 bits. |
| `HpetTimer.DelayReaches` | components/Init/src/hpet.c:168-194 | The armed delay ends with the counter at the comparator if that was ahead, and one tick past it if it was equal; the delay is exact if and only if ten times the distance fits in 64 bits. |
| `HpetTimer.WrapThenMatch` | components/Init/src/hpet.c:339-360 | The wrap flag is set exactly when the distance passes 2^32-1; an on-time wrap re-arms for the rest of the distance, and a late one still aims at the comparator while it is ahead. |
| `HpetWrites.ArmedGoesOff` | components/Init/src/hpet.c:339-360 | A timer armed for a comparator that is ahead goes off with the counter at it - or, exactly if it is a 32-bit one-shot timer whose comparator lies beyond the wrap, first with the low word all ones and the wrap flag set. |
| `HpetWrites.RearmedAfterWrap` | components/Init/src/hpet.c:329-337 | The callback after the wrap clears the flag and arms a delay that ends with the counter at the comparator. |
| `HpetWrites.PeriodicGoesOff` | components/Init/src/hpet.c:309-328 | After a periodic expiry the timer goes off with the counter at the comparator's new match, or one tick past it if the counter was already there. |
| `HpetRuns.StaysOnMatches` | components/Init/src/hpet.c:309-328 | Over any run of expiries, however late, every comparator is the first one plus a multiple of the period, modulo the width, and the multiples never go back. |
| `HpetRuns.OnTimeLands` | components/Init/src/hpet.c:309-328 | An expiry on time finds the counter at the comparator left by the one before it, or one tick past it if that one found the counter exactly there. |
| `HpetRuns.NoDrift` | components/Init/src/hpet.c:309-328 | Over a whole run on time every second expiry is at a match, exactly k periods after the first; one more expiry follows each of them a tick later. |
| `Hpet.FixupKeeps` | components/Init/src/hpet.c:151-156 | A register write takes exactly the masked bits from the guest and keeps the others. |
| `Hpet.PeriodOfNarrowTimer` | components/Init/src/hpet.c:502-541 | A low-word write keeps a 32-bit period below half the modulus; a high-word write does not touch the low word and can leave a non-zero multiple of the modulus, for which the catch-up does not end. |
| `HpetWrites.OneShotTakes` | components/Init/src/hpet.c:502-541 | A one-shot timer takes a comparator written in two halves, in either order, armed or not, and keeps its period. |
| `HpetWrites.PeriodicTakes` | components/Init/src/hpet.c:502-523 | A low-word write to a periodic timer sets the period, and the comparator exactly with the set-value bit, which it clears; the high words stay. |
| `HpetWrites.PeriodicTakesHigh` | components/Init/src/hpet.c:524-541 | A high-word write to a periodic timer sets the comparator with the set-value bit and the period without it, and the low words stay. |
| `HpetWrites.ComparatorThenPeriod` | components/Init/src/hpet.c:502-523 | With the set-value bit two low-word writes set first the comparator and then the period. |
| `HpetWrites.WrittenGoesOff` | components/Init/src/hpet.c:502-523 | A running 64-bit one-shot timer goes off when the counter is at the value written. |
| `HpetWrites.OnlySetvalCleared` | components/Init/src/hpet.c:502-541 | A comparator write clears the set-value bit of the configuration and no other. |
| `Hpet.Device.UpdateIrq` | components/Init/src/hpet.c:196-229 | When the interrupt status bit is set, cleared or left alone. |
| `Hpet.Device.SetTimer` | components/Init/src/hpet.c:339-360 | The timer is armed for its comparator or its wrap, its registers unchanged. |
| `Hpet.Device.Expire` | components/Init/src/hpet.c:309-337 | An expiry moves the comparator to its first match not behind the counter and arms the distance to it, and sets the status bit only of an enabled level timer. |
| `Hpet.Device.WriteTimerConfig` | components/Init/src/hpet.c:482-498 | A configuration write changes only writable bits, truncates for 32-bit mode, arms on activation and clears the status bit on deactivation. |
| `Hpet.Device.WriteComparator` | components/Init/src/hpet.c:502-523 | A low-word comparator write sets comparator and clamped period, drops the set-value bit and re-arms a running timer. |
| `Hpet.Device.WriteComparatorHigh` | components/Init/src/hpet.c:524-541 | A high-word write sets comparator or period, never both, and re-arms a running timer. |
| `Hpet.Device.WriteConfig` | components/Init/src/hpet.c:557-591 | Enabling restarts the counter and arms every timer whose comparator was set; disabling halts it, stops every timer and clears every status bit. |
| `Hpet.Device.WriteStatus` | components/Init/src/hpet.c:595-602 | Writing ones clears exactly those status bits. |
| `Hpet.WrittenCounterStarts` | components/Init/src/hpet.c:603-610 | A halted counter takes a value written in two halves, in either order, and starts from it if and only if the host clock is less than a tick past it. |
| `Hpet.WriteWhileRunningLost` | components/Init/src/hpet.c:603-610 | A write to a running counter is neither read back nor there once the counter is halted. |
| `Hpet.Device.Reset` | components/Init/src/hpet.c:634-658 | Reset disables the HPET and every timer and restores the capabilities. |
| `Hpet.ResumesExactly` | components/Init/src/hpet.c:560-569 | A restarted counter resumes its halted value if and only if the host clock is less than a tick past it; otherwise it jumps ahead, never back. |
| `Hpet.HaltHolds` | components/Init/src/hpet.c:575-581 | A halted counter stands at the value it had. |
| `Hpet.CounterMonotone` | components/Init/src/hpet.c:429-444 | Without guest writes to the counter and before 64-bit overflow, no sequence of enabling, disabling and reading makes the counter go backwards. |
| `SerialFifo.Fifo.Put` | components/Init/src/serial.c:215-236 | In every state of the ring, also after an overwrite: a full receive FIFO drops the byte with an overrun and a transmit FIFO stores it at the write position; where that is the end of the contents and there is room, the byte joins the end. |
| `SerialQueue.AppendsIff` | components/Init/src/serial.c:215-236 | A byte stored joins the end of the contents if and only if there is room and the write position is there, or the slot that becomes visible and the one overwritten happen to hold it already. |
| `SerialFifo.Fifo.Get` | components/Init/src/serial.c:238-254 | The oldest byte leaves the queue and the write position keeps its distance; an empty FIFO yields 0. |
| `SerialTransmit.WriteConserves` | components/Init/src/serial.c:376-458 | A byte written while there is room, into a FIFO that has not been overwritten, joins the end of what is pending; nothing is lost or sent twice, and timer and FIFO stay right. |
| `SerialTransmit.WritesConserveIff` | components/Init/src/serial.c:215-236 | Whatever byte the guest writes is conserved if and only if the FIFO or holding register is not full and, in FIFO mode, the write position is at the end of the contents. |
| `SerialTransmit.WriteConservesIff` | components/Init/src/serial.c:215-236 | The same for one given byte, with the exact coincidences in which a misplaced byte does no harm. |
| `SerialTransmit.OverwriteLosesLater` | components/Init/src/serial.c:215-236 | After one write into a full FIFO and two expiries there is room again and all flags are right, yet not every byte written is conserved. |
| `SerialTransmit.TickSendsNext` | components/Init/src/serial.c:1020-1023 | Each expiry of the transmit timer sends exactly the first pending byte. |
| `SerialTransmit.EveryRun` | components/Init/src/serial.c:376-458 | Over every run of writes, expiries, resets and mode changes: the write position is at the end of the contents if and only if the writes into a full FIFO since the last reset come in sixteens; what is pending has the timer set; and an expiry sends the first pending byte or, if and only if none is pending, one that is made up. |
| `SerialTransmit.TransmitConserves` | components/Init/src/serial.c:376-458 | Over every run without a write when full and without a reset while bytes wait: written = output, then the held byte, then the FIFO; the timer is set exactly while something is pending; at most 16 bytes go out between expiries. |
| `SerialTransmit.Drains` | components/Init/src/serial.c:376-430 | Left alone, the transmitter sends everything pending, in order, one byte per expiry, and then stops its timer. |
| `SerialTransmit.FlushDrains` | components/Init/src/serial.c:484-507 | After a FIFO reset or a change of the enable bit the transmitter outputs the byte held in the shift register and then, if and only if bytes waited, one more - a NUL in FIFO mode and otherwise the last byte written - and then stops its timer. |
| `Serial.Uart.constructor` | components/Init/src/serial.c:798-827 | Reset state: nothing pending, registers in step. |
| `Serial.Uart.UpdateIrq` | components/Init/src/serial.c:256-287 | Identification register and line follow the priority encoder. |
| `Serial.PriorityHighest` | components/Init/src/serial.c:256-287 | The encoder reports the interrupt of highest priority among those that are enabled and asked for, in the order of the PC16550D data sheet, and none exactly if there is none. |
| `Serial.TriggerLevels` | components/Init/src/serial.c:509-524 | The four receive trigger levels of the data sheet. |
| `Serial.Uart.UpdateMsl` | components/Init/src/serial.c:333-374 | Carrier and clear-to-send are on, with change bits and an interrupt update exactly if they were not. |
| `Serial.PolledLines` | components/Init/src/serial.c:333-374 | Polling turns both lines on, marks exactly the changes, and does nothing the second time. |
| `Serial.Uart.Xmit` | components/Init/src/serial.c:376-430 | Outside loopback an attempt acts on the byte queue as the transmitter model says and receives nothing; an attempt that leaves the holding register empty without meeting the limit sets both empty flags and makes the transmit interrupt pending; the interrupt stays in step. |
| `Serial.Uart.WriteThr` | components/Init/src/serial.c:443-458 | A guest write acts on the byte queue as the model says, in every state of the ring FIFOs and flags, and keeps the interrupt in step; if it leaves the holding register empty below the limit, the transmit interrupt is pending, and the line is up if it is enabled. |
| `Serial.Uart.TransmitTick` | components/Init/src/serial.c:1020-1023 | A timer expiry acts on the byte queue as the model says and keeps the interrupt in step; if it leaves the holding register empty, the transmit interrupt is pending, and the line is up if it is enabled. |
| `Serial.Uart.WriteIer` | components/Init/src/serial.c:460-483 | The interrupt stays in step if and only if, before the write, the holding register is empty, or a modem change is about to be noticed, or the old and new enables agree on the interrupts that count: line errors if there are any, data unless an enabled error comes first, modem changes unless an enabled one of these does. |
| `Serial.SameAnswerIff` | components/Init/src/serial.c:256-287 | That agreement of the enables is the same answer of the priority encoder. |
| `Serial.DataEnableMissed` | components/Init/src/serial.c:460-483 | A failing write: the data interrupt enabled with data waiting and the holding register in use. |
| `Serial.Uart.WriteFcr` | components/Init/src/serial.c:484-532 | Changing the enable bit flushes both FIFOs, a reset bit flushes one, each as the byte queue model says, and the interrupt stays in step. |
| `Serial.Uart.ReadRbr` | components/Init/src/serial.c:609-632 | The oldest received byte is returned and removed, data-ready tells whether more remain, and the transmitter is not affected. |
| `Serial.Uart.ReadIir` | components/Init/src/serial.c:640-646 | Reading a transmit interrupt withdraws it; no other interrupt is lost, and no other read changes anything. |
| `Serial.Uart.ReadLsr` | components/Init/src/serial.c:653-660 | Reading clears break and overrun and nothing else, and the interrupt follows. |
| `Serial.Uart.ReadMsr` | components/Init/src/serial.c:661-679 | Outside loopback reading polls the lines and clears the change bits, and the interrupt follows. |
| `Serial.Uart.FifoTimeout` | components/Init/src/serial.c:703-710 | The timeout is reported exactly if data waits, and raises the line if data interrupts are enabled. |
| `Serial.Uart.Receive1` | components/Init/src/serial.c:722-742 | A received byte joins the FIFO, with its timeout started, or replaces the receive register; overrun is flagged exactly when a byte is lost. No byte ever waits in the FIFO without its timeout running or reported. |
| `Serial.Uart.DrainHost` | components/Init/src/serial.c:1027-1050 | The input loop ends even while the host adds bytes, receives every byte it takes, in order and without overrun, and stops only with the host buffer empty or the retry timer set. |
| `Serial.Uart.CanReceiveIff` | components/Init/src/serial.c:584-599 | The bytes accepted at a time fill the FIFO exactly up to the trigger level and never exceed the room; none is accepted exactly if there is no room or the level is reached. |
| `SataServer.Server.CheckPartIsAssigned` | components/Sataserver/src/sataserver.c:375-396 | A partition is given out if and only if it exists and is free, for every unsigned byte. |
| `SataServer.Server.CheckClients` | components/Sataserver/src/sataserver.c:558-584 | The configuration is accepted if and only if it is valid. |
| `SataServer.ValidConfigIff` | components/Sataserver/src/sataserver.c:375-396 | A configuration is valid if and only if no client has more than four partitions, every one is from 1 to 4, and no two places name the same. |
| `SataServer.Server.BuildTable` | components/Sataserver/src/sataserver.c:598-655 | The virtual table lays the client's partitions end to end from sector 64. |
| `SataServer.Server.PostInit` | components/Sataserver/src/sataserver.c:553-667 | A valid configuration leaves every client with its table; any other is reported and leaves every table empty. |
| `SataServer.AcceptedIsSound` | components/Sataserver/src/sataserver.c:375-396 | An accepted configuration on separate physical partitions gives each client the partitions it names, and no sector to two clients or to two partitions. |
| `SataDisks.LocateFinds` | components/Sataserver/src/sataserver.c:153-173 | The lookup finds a partition exactly for the sectors of the virtual disk, and the partition that holds the sector. |
| `SataServer.Server.CalculateSectorOffset` | components/Sataserver/src/sataserver.c:153-173 | The loop finds the located partition and its offset translates the sector; after a rejected configuration it finds nothing. |
| `SataServer.Server.FindClient` | components/Sataserver/src/sataserver.c:212-219 | The client returned has the sender's id and is the last that has. |
| `SataServer.Server.ClientRx` | components/Sataserver/src/sataserver.c:185-252 | Reads reply as the shared-disk model says; before initialisation, and for data after a rejected configuration, they are refused. |
| `SataServer.Server.GetCapacity` | components/Sataserver/src/sataserver.c:326-353 | The capacity is 0 before initialisation and afterwards the end of the client's disk in 32 bits. |
| `SataServer.Server.ClientTx` | components/Sataserver/src/sataserver.c:264-316 | Writes reply and change the disk as the shared-disk model says; writes below sector 64 are acknowledged and dropped; a rejected configuration never writes. |
| `SataDisks.WriteRefines` | components/Sataserver/src/sataserver.c:299-312 | A write inside one virtual partition is that write on the client's own disk and changes no other client's disk. |
| `SataDisks.ReadRefines` | components/Sataserver/src/sataserver.c:237-248 | A read inside one virtual partition returns that part of the client's own disk. |
| `SataRequests.TableIsRead` | components/Sataserver/src/sataserver.c:221-229 | A read of sector 0 gives a table with one entry for each of the client's partitions, in order, apart and of the same size, whose entries hold exactly the sectors for which a data request is located; all other data requests are refused. |
| `SataRequests.HeaderSectors` | components/Sataserver/src/sataserver.c:231-234 | Sectors 1 to 63 read as zeros; writes below 64 are acknowledged and no later request of any client can tell they were made. |
| `SataRequests.CapacityIsEnd` | components/Sataserver/src/sataserver.c:598-655 | The capacity is the end of the sectors the table lists. |
| `SataRequests.DataServed` | components/Sataserver/src/sataserver.c:237-248 | A data request inside one partition is never refused: a read gives exactly the blocks of the client's disk from its sector on, a write puts its blocks there and changes nothing else of any client's disk. |
| `SataRequests.TooLong` | components/Sataserver/src/sataserver.c:192-194 | A request of more than 4096 bytes is refused and changes nothing. |
| `SataDisks.SharedRefinesIndependent` | components/Sataserver/src/sataserver.c:153-316 | Over every run of requests each inside one virtual partition, the shared disk gives the replies of independent disks, one per client, and holds their contents. |
| `SataDisks.ReadsOwnWrite` | components/Sataserver/src/sataserver.c:185-316 | A client reads back its own last write, whatever the other clients did in between. |
| `SataDisks.FirstSectorOwn` | components/Sataserver/src/sataserver.c:153-173 | The first sector of a located request is always the client's own, also for a table that runs past 2^32 sectors. |
| `SataDisks.IsolatedIff` | components/Sataserver/src/sataserver.c:299-312 | A located write that is on the disk leaves every other client's disk alone, for all data, if and only if its physical range meets no partition of another client: only the first sector is checked. |
| `SataDisks.IsolationFails` | components/Sataserver/src/sataserver.c:299-312 | A failing request: of two clients side by side on the disk one writes two sectors from its only one, and the second is what the other then has. |
| `UdpReceive.Client.constructor` | templates/seL4UDPRecv-to.template.c:144-158 | All slots start in the free list, nothing queued, a signal needed. |
| `UdpReceive.Client.Receive` | templates/seL4UDPRecv-to.template.c:66-91 | An arrival is queued last, or freed exactly when every slot is used; it signals exactly when the queue was empty; the lists stay acyclic, disjoint and complete. |
| `UdpReceive.Client.Poll` | templates/seL4UDPRecv-to.template.c:111-137 | A poll returns the oldest packet's payload in one piece, frees it once, moves its slot back, and reports whether more are queued. |
| `UdpReceive.Client.CopyOut` | templates/seL4UDPRecv-to.template.c:122-125 | The payload is the chain's buffers one after the other. |
| `UdpReceive.Client.EverySlotOnce` | templates/seL4UDPRecv-to.template.c:41-58 | Every message slot is in exactly one of the two lists. |
| `UdpReceive.EnqueueKeeps` | templates/seL4UDPRecv-to.template.c:66-91 | Relinking the first free slot to the tail of the used list keeps both lists and appends the packet. |
| `UdpReceive.DequeueKeeps` | templates/seL4UDPRecv-to.template.c:112-137 | Relinking the first used slot to the head of the free list keeps both lists and removes the oldest packet. |
| `UdpQueue.NothingStranded` | templates/seL4UDPRecv-to.template.c:66-141 | Over every interleaving of arrivals, polls and waits a non-empty queue has a pending signal or a client that will still poll it, a signal is needed exactly when the queue is empty, and accepted packets are delivered or queued in order. |
| `UdpQueue.OneSignalPerRise` | templates/seL4UDPRecv-to.template.c:77-80 | An arrival signals exactly when it makes an empty queue non-empty. |
| `UdpQueue.WakesForBits` | components/Echo/src/echo.c:31-59 | The program wakes up exactly for a badge bit, drains exactly the queues whose bits were set, and takes the bits. |
| `UdpQueue.DroppedWhenFull` | templates/seL4UDPRecv-to.template.c:66-91 | An arrival is dropped if and only if all slots hold packets, and is otherwise the last of its queue. |
| `UdpQueue.DrainDelivers` | components/Echo/src/echo.c:17-59 | Left alone, the client's drain loop delivers the whole queue in order and goes on to the next queue. |
| `SharedRing.Ring.Forward` | components/Init/src/virtio_con.c:143-159 | A byte joins the ring's contents, or empties it if it was full; a newline or a full ring notifies. |
| `SharedRing.Ring.NotifyRecv` | components/Init/src/virtio_con.c:112-119 | Everything up to the tail seen first is delivered in order and removed. |
| `SharedRing.Ring.Dequeue` | components/Init/src/serial.c:1086-1099 | The oldest byte is removed, if there is one. |
| `SharedRing.FullWriteEmpties` | components/Init/src/virtio_con.c:143-159 | A write adds one byte to the count in use unless the ring is full, when it empties it. |
| `ConsoleRing.ConsoleSafe` | components/Init/src/virtio_con.c:112-159 | Over every interleaving of the two programs' steps in which the sender does not write when full: delivered bytes, then the ring, are the bytes published; indices stay in range; and no wake-up for a newline or a full ring is lost. |
| `ConsoleRing.HandlerDelivers` | components/Init/src/virtio_con.c:112-119 | A notification handler that is left alone delivers everything published, empties the ring and goes back to sleep. |
| `ConsoleRing.SenderSends` | components/Init/src/virtio_con.c:143-159 | A write from start to end publishes the byte and notifies exactly for a newline or a full ring. |
| `ConsoleRing.StepConserves` | components/VM_Arm/src/modules/virtio_con.c:105-156 | Each step of the ARM twin's same protocol conserves the bytes and the order of the indices. |
| `ConsoleRing.ConsoleStarts` | components/Init/src/virtio_con.c:164-184 | The connections start in the invariant. |

## Left out

- VMM start-up, device wiring, the virtio network, block and socket back ends, and the CAmkES templates that only emit tables.
- `muldivu64`, `ROUND_DOWN`, the SATA and AHCI drivers, lwIP and the console emulation layer are not part of the model; the first is the exact floor of a*b/c, the disk driver transfers a range that is on the disk and refuses one that is not, and the emulation layer reads the ring byte by byte.
- The header that declares `rtc_time_date_t` is not part of this model: its fields are unbounded integers here.
- 64-bit overflow of absolute times in the 8254, and of the MC146818 clock within a second of 2^63 nanoseconds.
- 8254: BCD counting and the gate, which the code does not support; switching the interrupt off for HPET legacy mode; power-on before the first reset; square-wave readback for odd counts, which the code itself marks as doubtful.
- PitEdges.LineFollowsOutput: not mode 2, where the code schedules past the pulse on purpose; PitRuns.RateGeneratorRun has the exact condition there.
- PitRuns.RateGeneratorRun: counts of at least 2; the data sheet does not allow 1 in this mode.
- PitRuns.SquareWaveLands: counts of at least 2; with a count of 1 the output never changes.
- MC146818: interrupt coalescing, whose counter is never raised; the `#if 0` remnants; the effect of out-of-range dates on the day and month registers.
- Rtc.RegistersAgree: the guest's time registers must decode to a time of day when they take effect.
- HPET: MSI delivery, legacy routing and the level of the interrupt lines, save and load, the decoding of offsets, accesses wider than 32 bits, and timer numbers above 2.
- HpetRuns.NoDrift: periods of at least two ticks; a timer with a period of one tick expires at every tick.
- SerialTransmit.FlushDrains: the guest writes nothing until the timer has stopped; what an expiry sends in between is in SerialTransmit.EveryRun.
- Serial.Uart.DrainHost: the host's writer is any program that adds bytes while the ring has room.
- 16550A: the divisor latch, baud rate and character time; break; the loopback view of the modem lines; scratch register.
- Serial.Uart.WriteThr: in loopback mode only the invariants are stated, not the byte stream.
- SATA: cylinder, head and sector fields, boot flag and type of the table; DMA and driver set-up; the lock, which makes requests atomic; more than four partitions in a rejected configuration, where the source reads past its arrays.
- SataDisks.SharedRefinesIndependent: a client's partitions together must leave the virtual disk below 2^32 sectors.
- UDP: reply-capability handling; badges of more than the two clients of the echo program; the size of the shared buffer.
- Console: memory ordering below the level of steps; connections to more than one port.
