/**
 The port interface of the 8254 emulation: latches, the byte sequencing of word accesses, and the interrupt timer
 of channel 0.  A channel is a record; the device holds three of them in an array and updates them in place.
 */
module Pit {
  import opened Basics
  import opened Chains
  import opened PitTiming
  import opened PitRuns

  const RW_STATE_MSB := 2
  const RW_STATE_WORD0 := 3
  const RW_STATE_WORD1 := 4

  /** The access mode, the byte a word access is at in each direction, and the low byte of a word write. */
  datatype Sequencer = Sequencer(rwMode: nat, read: nat, write: nat, writeLatch: nat) {
    predicate Valid() {
      rwMode < 4 && writeLatch < 256
    }

    /** The word-access states follow the access mode; before the first control word all three are 0. */
    predicate InStep() {
      if rwMode == RW_STATE_WORD0 then
        read in {RW_STATE_WORD0, RW_STATE_WORD1} && write in {RW_STATE_WORD0, RW_STATE_WORD1}
      else read == rwMode && write == rwMode
    }
  }

  /** The latched count, how much of it is still to be read, and the latched status byte. */
  datatype Latch = Latch(count: nat, countLatched: nat, status: nat, statusLatched: bool) {
    predicate Valid() {
      count < 65536 && countLatched < 4
    }
  }

  datatype Interrupt = Interrupt(nextTransitionTime: int, connected: bool, disabled: bool)

  datatype Channel = Channel(timing: Program, bcd: nat, gate: bool, rw: Sequencer, latch: Latch, irq: Interrupt) {
    predicate Valid() {
      timing.Valid() && rw.Valid() && latch.Valid() && bcd < 2
    }
  }

  predicate Usable(c: Channel, now: nat) {
    c.Valid() && c.timing.loadTime <= now
  }

  // ---- What each access does to one channel ------------------------------------------------------------

  function Count(p: Program, now: nat): int
    requires p.Valid() && p.loadTime <= now
  {
    CountAt(p.mode, p.count, Elapsed(p, now))
  }

  function LatchCounted(c: Channel, now: nat): Channel
    requires Usable(c, now)
  {
    if c.latch.countLatched != 0 then c
    else c.(latch := c.latch.(count := Count(c.timing, now) % 65536, countLatched := c.rw.rwMode))
  }

  function StatusByte(c: Channel, now: nat): nat
    requires Usable(c, now)
  {
    (if Out(c.timing, now) then 128 else 0) + c.rw.rwMode * 16 + c.timing.mode * 2 + c.bcd
  }

  function StatusLatched(c: Channel, now: nat): Channel
    requires Usable(c, now)
  {
    if c.latch.statusLatched then c
    else c.(latch := c.latch.(status := StatusByte(c, now), statusLatched := true))
  }

  /** The read-back command on a selected channel; both latch bits are active low. */
  function ReadBackApplied(c: Channel, val: nat, now: nat): Channel
    requires Usable(c, now)
  {
    var c1 := if Bit(val, 0x20) then c else LatchCounted(c, now);
    if Bit(val, 0x10) then c1 else StatusLatched(c1, now)
  }

  /** The read-back bit that selects channel i. */
  function Select(i: nat): nat
    requires i < 3
  {
    [2, 4, 8][i]
  }

  function AccessBits(val: nat): nat {
    val / 16 % 4
  }

  /** A control word for this channel: a latch command when the access bits are zero, else a new mode. */
  function Controlled(c: Channel, val: nat, now: nat): Channel
    requires Usable(c, now)
  {
    var access := AccessBits(val);
    if access == 0 then LatchCounted(c, now)
    else c.(rw := Sequencer(access, access, access, c.rw.writeLatch),
            timing := c.timing.(mode := val / 2 % 8), bcd := val % 2)
  }

  /** The interrupt timer is evaluated at `at`: the schedule of channel 0 is renewed. */
  function Rescheduled(c: Channel, at: nat): Channel
    requires Usable(c, at)
  {
    if !c.irq.connected || c.irq.disabled then c
    else c.(irq := c.irq.(nextTransitionTime := NextTransition(c.timing, at)))
  }

  function Loaded(c: Channel, val: nat, now: nat): Channel
    requires c.Valid() && val < 65536
  {
    Rescheduled(c.(timing := Program(c.timing.mode, if val == 0 then 65536 else val, now)), now)
  }

  predicate Loads(c: Channel) {
    c.rw.write != RW_STATE_WORD0
  }

  function DataWritten(c: Channel, val: nat, now: nat): Channel
    requires c.Valid() && val < 256
  {
    if c.rw.write == RW_STATE_MSB then Loaded(c, val * 256, now)
    else if c.rw.write == RW_STATE_WORD0 then c.(rw := c.rw.(writeLatch := val, write := RW_STATE_WORD1))
    else if c.rw.write == RW_STATE_WORD1 then
      var loaded := Loaded(c, c.rw.writeLatch + val * 256, now);
      loaded.(rw := c.rw.(write := RW_STATE_WORD0))
    else Loaded(c, val, now)
  }

  /** A data read: the byte returned and the channel afterwards. */
  function DataRead(c: Channel, now: nat): (r: (nat, Channel))
    requires Usable(c, now)
  {
    var latch := c.latch;
    if latch.statusLatched then (latch.status, c.(latch := latch.(statusLatched := false)))
    else if latch.countLatched == RW_STATE_MSB then (latch.count / 256, c.(latch := latch.(countLatched := 0)))
    else if latch.countLatched == RW_STATE_WORD0 then
      (latch.count % 256, c.(latch := latch.(countLatched := RW_STATE_MSB)))
    else if latch.countLatched != 0 then (latch.count % 256, c.(latch := latch.(countLatched := 0)))
    else
      var count := Count(c.timing, now);
      if c.rw.read == RW_STATE_MSB then (count / 256 % 256, c)
      else if c.rw.read == RW_STATE_WORD0 then (count % 256, c.(rw := c.rw.(read := RW_STATE_WORD1)))
      else if c.rw.read == RW_STATE_WORD1 then (count / 256 % 256, c.(rw := c.rw.(read := RW_STATE_WORD0)))
      else (count % 256, c)
  }

  // ---- The device --------------------------------------------------------------------------------------

  class Device {
    const channels: array<Channel>
    /** The levels driven on the timer interrupt line, oldest first. */
    var irqLevels: seq<bool>
    /** The absolute time the one-shot timer is set for, or -1 when it is stopped. */
    var armed: int

    ghost predicate Valid(now: nat)
      reads this, channels
    {
      && channels.Length == 3
      && (forall i :: 0 <= i < 3 ==> Usable(channels[i], now) && channels[i].rw.InStep())
      && (forall i :: 0 <= i < 3 ==> (channels[i].irq.connected <==> i == 0))
      && (!channels[0].irq.disabled ==> armed == channels[0].irq.nextTransitionTime)
    }

    /** Power-on: every channel is a square wave of 65536, and only channel 0 drives an interrupt. */
    constructor (now: nat)
      ensures Valid(now) && fresh(channels)
      ensures forall i :: 0 <= i < 3 ==> channels[i].timing == Program(3, 65536, now)
      ensures armed == Callback(channels[0].timing, 1)
    {
      var idle := Channel(Program(3, 65536, now), 0, true, Sequencer(0, 0, 0, 0), Latch(0, 0, 0, false),
                          Interrupt(0, false, false));
      channels := new Channel[3](_ => idle);
      irqLevels := [];
      new;
      channels[2] := idle.(gate := false);
      channels[0] := idle.(irq := Interrupt(NextTransition(idle.timing, now), true, false));
      armed := channels[0].irq.nextTransitionTime;
      FirstCallback(idle.timing);
    }

    method IrqTimerUpdate(i: nat, at: nat)
      requires i < channels.Length == 3 && Usable(channels[i], at) && (channels[i].irq.connected <==> i == 0)
      modifies this, channels
      ensures channels[..] == old(channels[..])[i := Rescheduled(old(channels[i]), at)]
      ensures if i != 0 || channels[0].irq.disabled then irqLevels == old(irqLevels) && armed == old(armed)
              else irqLevels == old(irqLevels) + [Out(channels[0].timing, at)]
                   && armed == NextTransition(channels[0].timing, at) == channels[0].irq.nextTransitionTime
    {
      var s := channels[i];
      if !s.irq.connected || s.irq.disabled {
        return;
      }
      var expireTime := NextTransition(s.timing, at);
      irqLevels := irqLevels + [Out(s.timing, at)];
      channels[i] := s.(irq := s.irq.(nextTransitionTime := expireTime));
      if expireTime != -1 {
        armed := expireTime;
      } else {
        armed := -1;
      }
    }

    /**
     The timer callback of channel 0.  It does not look at the clock: if the timer was at callback n of the
     programmed chain it drives that callback's level and moves on to callback n + 1, however late it runs.
     */
    method IrqTimer(ghost now: nat)
      requires Valid(now) && !channels[0].irq.disabled
      requires channels[0].timing.loadTime <= channels[0].irq.nextTransitionTime
      modifies this, channels
      ensures Valid(now) && channels[0].timing == old(channels[0].timing)
      ensures forall n: nat :: old(armed) == Callback(channels[0].timing, n) ==>
                armed == Callback(channels[0].timing, n + 1)
                && irqLevels == old(irqLevels) + [Out(channels[0].timing, Callback(channels[0].timing, n))]
      ensures forall i :: 0 < i < 3 ==> channels[i] == old(channels[i])
    {
      IrqTimerUpdate(0, channels[0].irq.nextTransitionTime);
    }

    /** Loading a count starts the chain of callbacks of the new program. */
    method LoadCount(i: nat, val: nat, now: nat)
      requires Valid(now) && i < 3 && val < 65536
      modifies this, channels
      ensures Valid(now)
      ensures channels[..] == old(channels[..])[i := Loaded(old(channels[i]), val, now)]
      ensures if i != 0 || channels[0].irq.disabled then irqLevels == old(irqLevels) && armed == old(armed)
              else armed == Callback(channels[0].timing, 1)
                   && irqLevels == old(irqLevels) + [Out(channels[0].timing, Callback(channels[0].timing, 0))]
    {
      var s := channels[i];
      channels[i] := s.(timing := s.timing.(loadTime := now, count := if val == 0 then 0x10000 else val));
      IrqTimerUpdate(i, now);
      FirstCallback(channels[i].timing);
    }

    method LatchCount(i: nat, now: nat)
      requires Valid(now) && i < 3
      modifies channels
      ensures Valid(now) && channels[..] == old(channels[..])[i := LatchCounted(old(channels[i]), now)]
    {
      var s := channels[i];
      if s.latch.countLatched == 0 {
        channels[i] := s.(latch := s.latch.(count := Count(s.timing, now) % 0x10000, countLatched := s.rw.rwMode));
      }
    }

    /** The latching a read-back command does on one selected channel. */
    method ReadBackChannel(i: nat, val: nat, now: nat)
      requires Valid(now) && i < 3
      modifies channels
      ensures Valid(now) && channels[..] == old(channels[..])[i := ReadBackApplied(old(channels[i]), val, now)]
    {
      if !Bit(val, 0x20) {
        LatchCount(i, now);
      }
      var s := channels[i];
      if !Bit(val, 0x10) && !s.latch.statusLatched {
        channels[i] := s.(latch := s.latch.(status := StatusByte(s, now), statusLatched := true));
      }
    }

    method ReadBack(val: nat, now: nat)
      requires Valid(now) && val < 256
      modifies channels
      ensures Valid(now)
      ensures forall i :: 0 <= i < 3 ==>
                channels[i] == if Bit(val, Select(i)) then ReadBackApplied(old(channels[i]), val, now)
                               else old(channels[i])
    {
      for channel := 0 to 3
        invariant Valid(now)
        invariant forall i :: channel <= i < 3 ==> channels[i] == old(channels[i])
        invariant forall i :: 0 <= i < channel ==>
                    channels[i] == if Bit(val, Select(i)) then ReadBackApplied(old(channels[i]), val, now)
                                   else old(channels[i])
      {
        if Bit(val, Select(channel)) {
          ReadBackChannel(channel, val, now);
        }
      }
    }

    method IoportWrite(addr: nat, val: nat, now: nat)
      requires Valid(now) && val < 256
      modifies this, channels
      ensures Valid(now)
      ensures addr % 4 < 3 ==>
                channels[..] == old(channels[..])[addr % 4 := DataWritten(old(channels[addr % 4]), val, now)]
      ensures if addr % 4 == 0 && Loads(old(channels[0])) && !channels[0].irq.disabled then
                armed == Callback(channels[0].timing, 1)
                && irqLevels == old(irqLevels) + [Out(channels[0].timing, Callback(channels[0].timing, 0))]
              else armed == old(armed) && irqLevels == old(irqLevels)
      ensures addr % 4 == 3 && val / 64 < 3 ==>
                channels[..] == old(channels[..])[val / 64 := Controlled(old(channels[val / 64]), val, now)]
      ensures addr % 4 == 3 && val / 64 == 3 ==>
                forall i :: 0 <= i < 3 ==>
                  channels[i] == if Bit(val, Select(i)) then ReadBackApplied(old(channels[i]), val, now)
                                 else old(channels[i])
    {
      var a := addr % 4;
      if a == 3 {
        var channel := val / 64;
        if channel == 3 {
          ReadBack(val, now);
        } else if AccessBits(val) == 0 {
          LatchCount(channel, now);
        } else {
          var access, s := AccessBits(val), channels[channel];
          channels[channel] := s.(rw := Sequencer(access, access, access, s.rw.writeLatch),
                                  timing := s.timing.(mode := val / 2 % 8), bcd := val % 2);
        }
      } else if channels[a].rw.write == RW_STATE_MSB {
        LoadCount(a, val * 256, now);
      } else if channels[a].rw.write == RW_STATE_WORD0 {
        var s := channels[a];
        channels[a] := s.(rw := s.rw.(writeLatch := val, write := RW_STATE_WORD1));
      } else if channels[a].rw.write == RW_STATE_WORD1 {
        LoadCount(a, channels[a].rw.writeLatch + val * 256, now);
        var s := channels[a];
        channels[a] := s.(rw := s.rw.(write := RW_STATE_WORD0));
      } else {
        LoadCount(a, val, now);
      }
    }

    method IoportRead(addr: nat, now: nat) returns (ret: nat)
      requires Valid(now)
      modifies channels
      ensures Valid(now)
      ensures addr % 4 == 3 ==> ret == 0 && channels[..] == old(channels[..])
      ensures addr % 4 < 3 ==>
                var (byte, after) := DataRead(old(channels[addr % 4]), now);
                ret == byte && channels[..] == old(channels[..])[addr % 4 := after]
    {
      var a := addr % 4;
      if a == 3 {
        return 0;
      }
      var s := channels[a];
      if s.latch.statusLatched {
        channels[a] := s.(latch := s.latch.(statusLatched := false));
        ret := s.latch.status;
      } else if s.latch.countLatched == RW_STATE_MSB {
        ret := s.latch.count / 256;
        channels[a] := s.(latch := s.latch.(countLatched := 0));
      } else if s.latch.countLatched == RW_STATE_WORD0 {
        ret := s.latch.count % 256;
        channels[a] := s.(latch := s.latch.(countLatched := RW_STATE_MSB));
      } else if s.latch.countLatched != 0 {
        ret := s.latch.count % 256;
        channels[a] := s.(latch := s.latch.(countLatched := 0));
      } else {
        var count := Count(s.timing, now);
        if s.rw.read == RW_STATE_MSB {
          ret := count / 256 % 256;
        } else if s.rw.read == RW_STATE_WORD0 {
          ret := count % 256;
          channels[a] := s.(rw := s.rw.(read := RW_STATE_WORD1));
        } else if s.rw.read == RW_STATE_WORD1 {
          ret := count / 256 % 256;
          channels[a] := s.(rw := s.rw.(read := RW_STATE_WORD0));
        } else {
          ret := count % 256;
        }
      }
    }
  }

  // ---- Runs of accesses to one channel -----------------------------------------------------------------

  datatype Access = Control(word: nat) | ReadBack(word: nat) | Data(byte: nat) | Read | Expire

  /** An access and the time that passes before it. */
  datatype Event = Event(access: Access, delay: nat)

  datatype Timed = Timed(channel: Channel, now: nat) {
    predicate Valid() {
      Usable(channel, now)
    }
  }

  /** The effect of one access.  An expiry is the timer callback, evaluated at the scheduled time. */
  function Applied(c: Channel, access: Access, now: nat): Channel
    requires Usable(c, now)
  {
    match access
    case Control(word) => Controlled(c, word, now)
    case ReadBack(word) => ReadBackApplied(c, word, now)
    case Data(byte) => DataWritten(c, byte % 256, now)
    case Read => DataRead(c, now).1
    case Expire => if c.irq.nextTransitionTime < c.timing.loadTime then c else Rescheduled(c, c.irq.nextTransitionTime)
  }

  function Step(t: Timed, e: Event): Timed {
    if !t.Valid() then t
    else Timed(Applied(t.channel, e.access, t.now + e.delay), t.now + e.delay)
  }

  function Run(t: Timed, events: seq<Event>): Timed {
    Fold(Step, t, events)
  }

  lemma StepKeepsInStep(t: Timed, e: Event)
    requires t.Valid()
    ensures Step(t, e).Valid()
    ensures t.channel.rw.InStep() ==> Step(t, e).channel.rw.InStep()
  {
    match e.access {
      case Data(byte) => DataWriteKeeps(t.channel, byte % 256, t.now + e.delay);
      case Read => DataReadKeeps(t.channel, t.now + e.delay);
      case ReadBack(word) => ReadBackKeeps(t.channel, word, t.now + e.delay);
      case _ =>
    }
  }

  lemma DataReadKeeps(c: Channel, now: nat)
    requires Usable(c, now)
    ensures Usable(DataRead(c, now).1, now)
    ensures c.rw.InStep() ==> DataRead(c, now).1.rw.InStep()
  {
  }

  lemma ReadBackKeeps(c: Channel, word: nat, now: nat)
    requires Usable(c, now)
    ensures Usable(ReadBackApplied(c, word, now), now) && ReadBackApplied(c, word, now).rw == c.rw
  {
  }

  lemma DataWriteKeeps(c: Channel, byte: nat, now: nat)
    requires Usable(c, now) && byte < 256
    ensures Usable(DataWritten(c, byte, now), now)
    ensures c.rw.InStep() ==> DataWritten(c, byte, now).rw.InStep()
  {
  }

  /** Whatever the guest does, the word-access states stay in step with the access mode. */
  lemma RunInStep(t: Timed, events: seq<Event>)
    requires t.Valid() && t.channel.rw.InStep()
    ensures Run(t, events).Valid() && Run(t, events).channel.rw.InStep()
  {
    var inv := (t: Timed) => t.Valid() && t.channel.rw.InStep();
    forall t, e | inv(t)
      ensures inv(Step(t, e))
    {
      StepKeepsInStep(t, e);
    }
    FoldKeeps(Step, inv, _ => true, t, events);
  }

  predicate NoReads(events: seq<Event>) {
    forall e :: e in events ==> e.access != Read
  }

  predicate Holds(t: Timed, latched: nat, count: nat) {
    t.Valid() && t.channel.latch.countLatched == latched && t.channel.latch.count == count
  }

  /** A latched count survives everything but reads of the channel. */
  lemma LatchHolds(t: Timed, events: seq<Event>)
    requires t.Valid() && NoReads(events) && t.channel.latch.countLatched != 0
    ensures Holds(Run(t, events), t.channel.latch.countLatched, t.channel.latch.count)
  {
    var latched, count := t.channel.latch.countLatched, t.channel.latch.count;
    var inv := (t: Timed) => Holds(t, latched, count);
    var allowed := (e: Event) => e.access != Read;
    forall t, e | inv(t) && allowed(e)
      ensures inv(Step(t, e))
    {
      StepKeepsInStep(t, e);
    }
    FoldKeeps(Step, inv, allowed, t, events);
  }

  /** Read the next count byte; a latched status byte is returned, and dropped, first. */
  function CountByte(t: Timed): (nat, Timed)
    requires t.Valid()
  {
    var (byte, c) := DataRead(t.channel, t.now);
    if t.channel.latch.statusLatched then
      var (countByte, c2) := DataRead(c, t.now);
      (countByte, Timed(c2, t.now))
    else (byte, Timed(c, t.now))
  }

  lemma CountByteTaken(t: Timed)
    requires t.Valid() && t.channel.latch.countLatched != 0
    ensures var (byte, after) := CountByte(t);
            && after.Valid()
            && byte == (if t.channel.latch.countLatched == RW_STATE_MSB then t.channel.latch.count / 256
                        else t.channel.latch.count % 256)
            && after.channel.latch.countLatched == (if t.channel.latch.countLatched == RW_STATE_WORD0 then RW_STATE_MSB else 0)
            && after.channel.latch.count == t.channel.latch.count
            && !after.channel.latch.statusLatched
    ensures t.channel.latch.statusLatched ==> DataRead(t.channel, t.now).0 == t.channel.latch.status
  {
  }

  /**
   A count latched in word mode comes back low byte first and high byte second, whatever control words, latch
   commands, read-backs, data writes and timer expiries happen before and between the two reads and however much
   time passes; a latched status byte is read before it.  Afterwards nothing is latched.
   */
  lemma WordLatchReadback(t: Timed, before: seq<Event>, between: seq<Event>)
    requires t.Valid() && t.channel.rw.rwMode == RW_STATE_WORD0 && t.channel.latch.countLatched == 0
    requires NoReads(before) && NoReads(between)
    ensures var latched := Run(Timed(LatchCounted(t.channel, t.now), t.now), before);
            latched.Valid() &&
            var (low, t1) := CountByte(latched);
            Run(t1, between).Valid() &&
            var (high, t2) := CountByte(Run(t1, between));
            && low + 256 * high == Count(t.channel.timing, t.now) % 65536
            && low < 256
            && t2.channel.latch.countLatched == 0
            && (latched.channel.latch.statusLatched ==>
                  DataRead(latched.channel, latched.now).0 == latched.channel.latch.status)
  {
    var c := LatchCounted(t.channel, t.now);
    LatchHolds(Timed(c, t.now), before);
    var latched := Run(Timed(c, t.now), before);
    CountByteTaken(latched);
    var t1 := CountByte(latched).1;
    LatchHolds(t1, between);
    CountByteTaken(Run(t1, between));
  }

  /** Events that neither write data to the channel nor program a new mode. */
  predicate KeepsWrites(events: seq<Event>) {
    forall e :: e in events ==> KeepsWrite(e)
  }

  predicate KeepsWrite(e: Event) {
    !e.access.Data? && !(e.access.Control? && AccessBits(e.access.word) != 0)
  }

  /** The channel is as `c` for everything a word write depends on. */
  predicate SameWrite(t: Timed, c: Channel) {
    && t.Valid()
    && t.channel.timing == c.timing
    && t.channel.rw.(read := 0) == c.rw.(read := 0)
  }

  lemma HalfWordHolds(t: Timed, events: seq<Event>)
    requires t.Valid() && KeepsWrites(events)
    ensures SameWrite(Run(t, events), t.channel)
  {
    var c := t.channel;
    var inv := (t: Timed) => SameWrite(t, c);
    forall t, e | inv(t) && KeepsWrite(e)
      ensures inv(Step(t, e))
    {
      StepKeepsInStep(t, e);
    }
    FoldKeeps(Step, inv, KeepsWrite, t, events);
  }

  /**
   A word write loads exactly low + 256 * high, with 0 meaning 65536, at the time of the second byte, whatever
   reads, latches, read-backs and expiries come in between; until then the old count keeps running.
   */
  lemma WordWriteLoads(t: Timed, low: nat, between: seq<Event>, high: nat)
    requires t.Valid() && t.channel.rw.rwMode == RW_STATE_WORD0 && t.channel.rw.write == RW_STATE_WORD0
    requires low < 256 && high < 256 && KeepsWrites(between)
    ensures var half := Run(Timed(DataWritten(t.channel, low, t.now), t.now), between);
            half.Valid() &&
            var r := DataWritten(half.channel, high, half.now);
            && half.channel.timing == t.channel.timing
            && r.timing ==
               Program(t.channel.timing.mode, if low == 0 && high == 0 then 65536 else low + 256 * high, half.now)
            && r.rw.write == RW_STATE_WORD0
  {
    HalfWordHolds(Timed(DataWritten(t.channel, low, t.now), t.now), between);
  }

  // ---- What the bits of the port bytes mean ------------------------------------------------------------

  /** A control word of the data sheet: channel, access mode, counting mode and BCD bit. */
  function ControlWord(select: nat, access: nat, mode: nat, bcd: nat): nat {
    select * 64 + access * 16 + mode * 2 + bcd
  }

  lemma ControlWordFields(select: nat, access: nat, mode: nat, bcd: nat)
    requires select < 4 && access < 4 && mode < 8 && bcd < 2
    ensures var word := ControlWord(select, access, mode, bcd);
            && word < 256 && word / 64 == select && AccessBits(word) == access
            && word / 2 % 8 == mode && word % 2 == bcd && word % 64 == access * 16 + mode * 2 + bcd
  {
    var word := ControlWord(select, access, mode, bcd);
    assert word / 64 == select;
    assert word / 16 == select * 4 + access;
    assert word / 2 == (select * 4 + access) * 8 + mode;
  }

  /** A control word programs the access and counting modes and leaves the count, its time and the latches alone. */
  lemma ControlPrograms(c: Channel, select: nat, access: nat, mode: nat, bcd: nat, now: nat)
    requires Usable(c, now) && select < 3 && 1 <= access < 4 && mode < 8 && bcd < 2
    ensures var d := Controlled(c, ControlWord(select, access, mode, bcd), now);
            && d.timing == Program(mode, c.timing.count, c.timing.loadTime) && d.bcd == bcd
            && d.rw.rwMode == d.rw.read == d.rw.write == access
            && d.latch == c.latch && d.irq == c.irq && d.gate == c.gate
  {
    ControlWordFields(select, access, mode, bcd);
  }

  /** A control word without access bits latches the count and does nothing else. */
  lemma ControlLatches(c: Channel, select: nat, mode: nat, bcd: nat, now: nat)
    requires Usable(c, now) && select < 3 && mode < 8 && bcd < 2
    ensures var d := Controlled(c, ControlWord(select, 0, mode, bcd), now);
            && d == c.(latch := d.latch)
            && (c.latch.countLatched != 0 ==> d == c)
            && (c.latch.countLatched == 0 && c.rw.rwMode != 0 ==>
                  d.latch.countLatched != 0 && d.latch.count == Count(c.timing, now) % 65536
                  && d.latch.statusLatched == c.latch.statusLatched)
  {
    ControlWordFields(select, 0, mode, bcd);
  }

  predicate HoldsStatus(t: Timed, status: nat) {
    t.Valid() && t.channel.latch.statusLatched && t.channel.latch.status == status
  }

  lemma StatusHolds(t: Timed, events: seq<Event>)
    requires t.Valid() && t.channel.latch.statusLatched && NoReads(events)
    ensures HoldsStatus(Run(t, events), t.channel.latch.status)
  {
    var status := t.channel.latch.status;
    var inv := (t: Timed) => HoldsStatus(t, status);
    var allowed := (e: Event) => e.access != Read;
    forall t, e | inv(t) && allowed(e)
      ensures inv(Step(t, e))
    {
      StepKeepsInStep(t, e);
    }
    FoldKeeps(Step, inv, allowed, t, events);
  }

  /**
   What a control word programs is what the status byte gives back: the six low bits of the word, below the level of
   the output when the status was latched - whatever accesses but reads come between the latch and the read.
   */
  lemma StatusReadback(c: Channel, select: nat, access: nat, mode: nat, bcd: nat, now: nat, events: seq<Event>)
    requires Usable(c, now) && !c.latch.statusLatched && NoReads(events)
    requires select < 3 && 1 <= access < 4 && mode < 8 && bcd < 2
    ensures var word := ControlWord(select, access, mode, bcd);
            var d := Controlled(c, word, now);
            var later := Run(Timed(StatusLatched(d, now), now), events);
            && later.Valid()
            && DataRead(later.channel, later.now).0 == word % 64 + (if Out(d.timing, now) then 128 else 0)
            && !DataRead(later.channel, later.now).1.latch.statusLatched
  {
    var word := ControlWord(select, access, mode, bcd);
    var d := Controlled(c, word, now);
    assert word % 64 == access * 16 + mode * 2 + bcd by {
      ControlWordFields(select, access, mode, bcd);
    }
    ControlPrograms(c, select, access, mode, bcd, now);
    var latched := Timed(StatusLatched(d, now), now);
    StatusHolds(latched, events);
    StatusTaken(Run(latched, events), latched.channel.latch.status);
  }

  lemma StatusTaken(t: Timed, status: nat)
    requires HoldsStatus(t, status)
    ensures DataRead(t.channel, t.now).0 == status && !DataRead(t.channel, t.now).1.latch.statusLatched
  {
  }

  /** A read-back command of the data sheet; its two latch bits are active low. */
  function ReadBackWord(keepCount: bool, keepStatus: bool, channels: seq<bool>): nat
    requires |channels| == 3
  {
    192 + 32 * One(keepCount) + 16 * One(keepStatus) + 2 * One(channels[0]) + 4 * One(channels[1]) + 8 * One(channels[2])
  }

  /** A read-back command selects the channels it names and latches what it says, count and status apart. */
  lemma ReadBackLatches(c: Channel, keepCount: bool, keepStatus: bool, channels: seq<bool>, now: nat)
    requires Usable(c, now) && |channels| == 3
    ensures var word := ReadBackWord(keepCount, keepStatus, channels);
            && word / 64 == 3 && word < 256
            && (forall i :: 0 <= i < 3 ==> (Bit(word, Select(i)) <==> channels[i]))
            && var d := ReadBackApplied(c, word, now);
            && d == c.(latch := d.latch)
            && (keepCount ==> d.latch.countLatched == c.latch.countLatched && d.latch.count == c.latch.count)
            && (!keepCount && c.rw.rwMode != 0 ==> d.latch.countLatched != 0)
            && (keepStatus ==> d.latch.statusLatched == c.latch.statusLatched && d.latch.status == c.latch.status)
            && (!keepStatus ==> d.latch.statusLatched)
  {
    ReadBackBits(keepCount, keepStatus, channels);
  }

  lemma ReadBackBits(keepCount: bool, keepStatus: bool, channels: seq<bool>)
    requires |channels| == 3
    ensures var word := ReadBackWord(keepCount, keepStatus, channels);
            && (Bit(word, 0x20) <==> keepCount) && (Bit(word, 0x10) <==> keepStatus)
            && forall i :: 0 <= i < 3 ==> (Bit(word, Select(i)) <==> channels[i])
  {
    var word := ReadBackWord(keepCount, keepStatus, channels);
    var c0, c1, c2 := One(channels[0]), One(channels[1]), One(channels[2]);
    var kc, ks := One(keepCount), One(keepStatus);
    assert word / 0x20 == 6 + kc;
    assert word / 0x10 == 12 + 2 * kc + ks;
    assert word / 8 == 24 + 4 * kc + 2 * ks + c2;
    assert word / 4 == 48 + 8 * kc + 4 * ks + 2 * c2 + c1;
    assert word / 2 == 96 + 16 * kc + 8 * ks + 4 * c2 + 2 * c1 + c0;
  }

  function One(b: bool): nat {
    if b then 1 else 0
  }

  // ---- Single bytes and live counts --------------------------------------------------------------------

  /**
   In single-byte access one write loads the count, as the low byte or as the high one with the other byte zero, and
   0 as 65536, whatever reads, latches and expiries come before it.
   */
  lemma ByteWriteLoads(t: Timed, before: seq<Event>, byte: nat)
    requires t.Valid() && t.channel.rw.InStep() && t.channel.rw.rwMode in {1, 2}
    requires KeepsWrites(before) && byte < 256
    ensures var s := Run(t, before);
            var value := if t.channel.rw.rwMode == 1 then byte else byte * 256;
            && s.Valid()
            && DataWritten(s.channel, byte, s.now).timing ==
               Program(t.channel.timing.mode, if byte == 0 then 65536 else value, s.now)
            && DataWritten(s.channel, byte, s.now).rw.InStep()
  {
    HalfWordHolds(t, before);
    RunInStep(t, before);
  }

  /** A count latched in single-byte access is read in one go, the byte selected, and nothing is latched afterwards. */
  lemma ByteLatchReadback(t: Timed, before: seq<Event>)
    requires t.Valid() && t.channel.rw.rwMode in {1, 2} && t.channel.latch.countLatched == 0 && NoReads(before)
    ensures var latched := Run(Timed(LatchCounted(t.channel, t.now), t.now), before);
            var count := Count(t.channel.timing, t.now) % 65536;
            && latched.Valid()
            && CountByte(latched).0 == (if t.channel.rw.rwMode == 1 then count % 256 else count / 256)
            && CountByte(latched).1.channel.latch.countLatched == 0
  {
    LatchHolds(Timed(LatchCounted(t.channel, t.now), t.now), before);
    CountByteTaken(Run(Timed(LatchCounted(t.channel, t.now), t.now), before));
  }

  /**
   With nothing latched a read gives the running count: one byte of it in single-byte access, and in word access the
   low byte and then the high one, each of the count at the time of its own read.
   */
  lemma LiveRead(c: Channel, now: nat, later: nat)
    requires Usable(c, now) && now <= later && c.rw.InStep() && c.rw.rwMode != 0
    requires !c.latch.statusLatched && c.latch.countLatched == 0
    ensures var (byte, d) := DataRead(c, now);
            var low, high := Count(c.timing, now) % 65536 % 256, Count(c.timing, now) % 65536 / 256;
            && (c.rw.rwMode == 1 ==> byte == low && d == c)
            && (c.rw.rwMode == 2 ==> byte == high && d == c)
            && (c.rw.rwMode == 3 && c.rw.read == 3 ==>
                  byte == low && DataRead(d, later) == (Count(c.timing, later) % 65536 / 256, c))
  {
    HighByte(Count(c.timing, now));
    HighByte(Count(c.timing, later));
  }

  lemma HighByte(count: int)
    ensures count % 65536 % 256 == count % 256 && count % 65536 / 256 == count / 256 % 256
  {
  }
}
