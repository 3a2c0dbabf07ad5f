/**
 The 16550A emulation: registers as records with one Boolean per bit, the two FIFOs, the interrupt priority encoder,
 the throttled transmitter and the flow-controlled input.
 */
module Serial {
  import opened Basics
  import opened SerialQueue
  import opened SerialTransmit
  import opened SerialFifo
  import opened SharedRing

  datatype Ier = Ier(msi: bool, rlsi: bool, thri: bool, rdi: bool)

  datatype Lsr = Lsr(temt: bool, thre: bool, bi: bool, fe: bool, pe: bool, oe: bool, dr: bool) {
    predicate AnyError() {
      bi || fe || pe || oe
    }
  }

  datatype Msr = Msr(dcd: bool, ri: bool, dsr: bool, cts: bool, ddcd: bool, teri: bool, ddsr: bool, dcts: bool) {
    predicate AnyDelta() {
      ddcd || teri || ddsr || dcts
    }
  }

  /** The bits of the FIFO control register that stick: trigger level, DMA mode and FIFO enable. */
  datatype Fcr = Fcr(level: nat, dma: bool, fe: bool)

  /** The low bits of the interrupt identification register. */
  datatype Cause = NoInterrupt | ModemStatus | TransmitEmpty | DataReady | LineStatus | Timeout

  /** The highest-priority interrupt of a state. */
  function Priority(ier: Ier, lsr: Lsr, msr: Msr, timeout: bool, thrPending: bool, triggered: bool): Cause {
    if ier.rlsi && lsr.AnyError() then LineStatus
    else if ier.rdi && timeout then Timeout
    else if ier.rdi && lsr.dr && triggered then DataReady
    else if ier.thri && thrPending then TransmitEmpty
    else if ier.msi && msr.AnyDelta() then ModemStatus
    else NoInterrupt
  }

  /** The interrupts of the data sheet: each is enabled by its own bit and asked for by its own condition. */
  predicate Asks(cause: Cause, ier: Ier, lsr: Lsr, msr: Msr, timeout: bool, thrPending: bool, triggered: bool) {
    match cause
    case LineStatus => ier.rlsi && lsr.AnyError()
    case Timeout => ier.rdi && timeout
    case DataReady => ier.rdi && lsr.dr && triggered
    case TransmitEmpty => ier.thri && thrPending
    case ModemStatus => ier.msi && msr.AnyDelta()
    case NoInterrupt => true
  }

  /** Their priorities, the highest first. */
  function Rank(cause: Cause): nat {
    match cause
    case LineStatus => 0
    case Timeout => 1
    case DataReady => 2
    case TransmitEmpty => 3
    case ModemStatus => 4
    case NoInterrupt => 5
  }

  /** The encoder gives the interrupt of highest priority among those that ask, and none exactly if none does. */
  lemma PriorityHighest(ier: Ier, lsr: Lsr, msr: Msr, timeout: bool, thrPending: bool, triggered: bool)
    ensures var cause := Priority(ier, lsr, msr, timeout, thrPending, triggered);
            && Asks(cause, ier, lsr, msr, timeout, thrPending, triggered)
            && forall other: Cause :: Asks(other, ier, lsr, msr, timeout, thrPending, triggered) ==>
                 Rank(cause) <= Rank(other)
  {
    var cause := Priority(ier, lsr, msr, timeout, thrPending, triggered);
    forall other: Cause | Asks(other, ier, lsr, msr, timeout, thrPending, triggered)
      ensures Rank(cause) <= Rank(other)
    {
      match other {
        case LineStatus =>
        case Timeout =>
        case DataReady =>
        case TransmitEmpty =>
        case ModemStatus =>
        case NoInterrupt =>
      }
    }
  }

  /**
   A new set of interrupt enables gives the encoder the same answer as the old one: they agree on line errors if there
   are any, on received data unless an error comes first, and on modem changes unless something else comes first.
   There is no transmit interrupt to take into account while the holding register is in use.
   */
  predicate SameAnswer(before: Ier, after: Ier, lsr: Lsr, msr: Msr, timeout: bool, triggered: bool) {
    var errors, data := lsr.AnyError(), timeout || (lsr.dr && triggered);
    && (errors ==> after.rlsi == before.rlsi)
    && (data && !(errors && after.rlsi) ==> after.rdi == before.rdi)
    && (msr.AnyDelta() && !(errors && after.rlsi) && !(data && after.rdi) ==> after.msi == before.msi)
  }

  lemma SameAnswerIff(before: Ier, after: Ier, lsr: Lsr, msr: Msr, timeout: bool, triggered: bool)
    ensures SameAnswer(before, after, lsr, msr, timeout, triggered)
            <==> (Priority(before, lsr, msr, timeout, false, triggered)
                  == Priority(after, lsr, msr, timeout, false, triggered))
  {
  }

  /**
   The case that is missed: while the holding register is in use, a guest enables the data interrupt with data waiting.
   The encoder would now report the data, but it is not asked.
   */
  lemma DataEnableMissed(ier: Ier, lsr: Lsr, msr: Msr, timeout: bool)
    requires !lsr.thre && lsr.dr && !lsr.AnyError() && !ier.rdi
    ensures var after := ier.(rdi := true);
            && !SameAnswer(ier, after, lsr, msr, timeout, true)
            && Priority(ier, lsr, msr, timeout, false, true) in {NoInterrupt, ModemStatus}
            && Priority(after, lsr, msr, timeout, false, true) in {DataReady, Timeout}
  {
  }

  function TriggerLevel(level: nat): nat {
    if level == 0 then 1 else if level == 1 then 4 else if level == 2 then 8 else 14
  }

  /** The trigger levels of the data sheet, by the two high bits of the FIFO control register. */
  lemma TriggerLevels()
    ensures TriggerLevel(0) == 1 && TriggerLevel(1) == 4 && TriggerLevel(2) == 8 && TriggerLevel(3) == 14
  {
  }

  /** The modem lines of the emulation are carrier detect and clear to send, always on. */
  function Polled(msr: Msr): Msr {
    msr.(dcd := true, cts := true, ddcd := msr.ddcd || !msr.dcd, dcts := msr.dcts || !msr.cts)
  }

  /** Polling turns both lines on and marks exactly the changes; polling again changes nothing more. */
  lemma PolledLines(msr: Msr)
    ensures var p := Polled(msr);
            && p.dcd && p.cts && p.ri == msr.ri && p.dsr == msr.dsr && p.teri == msr.teri && p.ddsr == msr.ddsr
            && (p.ddcd <==> msr.ddcd || !msr.dcd) && (p.dcts <==> msr.dcts || !msr.cts)
            && Polled(p) == p
            && (p != msr ==> p.AnyDelta())
  {
  }

  class Uart {
    const recv: Fifo
    const xmit: Fifo
    var rbr: Byte
    var thr: Byte
    var tsr: Byte
    var ier: Ier
    var iir: Cause
    var iirFifo: bool
    var lsr: Lsr
    var msr: Msr
    var fcr: Fcr
    var loopback: bool
    var thrPending: bool
    var timeoutPending: bool
    var tsrRetry: int
    var charsSent: nat
    /** Polling of the modem lines; never switched off, so a byte that keeps meeting the limit is not dropped. */
    var pollMsl: nat
    var irqLine: bool
    var transmitArmed: bool
    var timeoutArmed: bool
    var moreCharsArmed: bool
    var output: seq<Byte>

    /**
     What every method keeps: an empty-register interrupt is pending only while the register is empty, and no byte
     waits in the receive FIFO without its timeout running or reported.
     */
    ghost predicate Valid()
      reads this, recv, xmit
    {
      && recv != xmit && recv.data != xmit.data
      && recv.Valid() && recv.Aligned() && xmit.Valid()
      && iirFifo == fcr.fe
      && (fcr.fe ==> recv.itl == TriggerLevel(fcr.level))
      && (thrPending ==> lsr.thre)
      && (recv.count > 0 ==> timeoutArmed || timeoutPending)
    }

    /** What the priority encoder says about the current state. */
    ghost function Current(): Cause
      reads this, recv
    {
      Priority(ier, lsr, msr, timeoutPending, thrPending, !fcr.fe || recv.count >= recv.itl)
    }

    /** The identification register and the interrupt line follow the priority encoder. */
    ghost predicate IrqInStep()
      reads this, recv
    {
      iir == Current() && irqLine == (iir != NoInterrupt)
    }

    /** The transmitter. */
    ghost function Transmitter(): Tx
      reads this, recv, xmit, xmit.data
      requires Valid()
    {
      Tx(fcr.fe, xmit.Queue(), thr, lsr.thre, tsr, tsrRetry, charsSent, transmitArmed, output)
    }

    /** Reset state: nothing pending, no interrupt enabled. */
    constructor ()
      ensures Valid() && IrqInStep() && !loopback
      ensures fresh(recv) && fresh(xmit) && fresh(recv.data) && fresh(xmit.data)
      ensures Transmitter().Inv() && Transmitter().Aligned() && Transmitter().Pending() == [] && output == []
    {
      recv := new Fifo();
      xmit := new Fifo();
      rbr, thr, tsr := 0, 0, 0;
      ier, iir, iirFifo := Ier(false, false, false, false), NoInterrupt, false;
      lsr := Lsr(true, true, false, false, false, false, false);
      msr := Msr(true, false, true, true, false, false, false, false);
      fcr := Fcr(0, false, false);
      loopback, thrPending, timeoutPending := false, false, false;
      tsrRetry, charsSent, pollMsl := 0, 0, 0;
      irqLine, transmitArmed, timeoutArmed, moreCharsArmed := false, false, false, false;
      output := [];
    }

    method UpdateIrq()
      requires Valid()
      modifies this`iir, this`irqLine
      ensures IrqInStep()
    {
      var cause := NoInterrupt;
      if ier.rlsi && lsr.AnyError() {
        cause := LineStatus;
      } else if ier.rdi && timeoutPending {
        cause := Timeout;
      } else if ier.rdi && lsr.dr && (!fcr.fe || recv.count >= recv.itl) {
        cause := DataReady;
      } else if ier.thri && thrPending {
        cause := TransmitEmpty;
      } else if ier.msi && msr.AnyDelta() {
        cause := ModemStatus;
      }
      iir := cause;
      irqLine := cause != NoInterrupt;
    }

    method UpdateMsl()
      requires Valid()
      modifies this`msr, this`iir, this`irqLine
      ensures msr == Polled(old(msr))
      ensures if msr != old(msr) then IrqInStep() else iir == old(iir) && irqLine == old(irqLine)
    {
      var omsr := msr;
      msr := msr.(cts := true, dcd := true);
      if msr != omsr {
        msr := msr.(ddcd := msr.ddcd || !omsr.dcd, dcts := msr.dcts || !omsr.cts);
        UpdateIrq();
      }
    }

    // ---- Transmitting ----------------------------------------------------------------------------------

    /** The next byte moves to the shift register, unless one is still held there. */
    method Load()
      requires Valid() && IrqInStep()
      modifies this`tsr, this`lsr, xmit`count, xmit`tail
      ensures Valid() && IrqInStep()
      ensures Transmitter() == Loaded(old(Transmitter()))
      ensures lsr == old(lsr).(thre := lsr.thre)
    {
      if tsrRetry <= 0 {
        if fcr.fe {
          LoadFifo();
        } else {
          tsr := thr;
          lsr := lsr.(thre := true);
        }
      }
    }

    method LoadFifo()
      requires Valid() && fcr.fe && tsrRetry <= 0
      modifies this`tsr, this`lsr, xmit`count, xmit`tail
      ensures Valid()
      ensures Transmitter() == Loaded(old(Transmitter()))
      ensures lsr == old(lsr).(thre := lsr.thre)
    {
      tsr := xmit.Get();
      if xmit.count == 0 {
        lsr := lsr.(thre := true);
      }
    }

    /** After a byte is dealt with: set the timer for the next one, or report the holding register empty. */
    method Continue()
      requires Valid() && IrqInStep()
      modifies this`transmitArmed, this`lsr, this`thrPending, this`iir, this`irqLine
      ensures Valid() && IrqInStep()
      ensures Transmitter() == Continued(old(Transmitter()))
      ensures lsr == old(lsr).(temt := lsr.temt)
      ensures lsr.thre ==> thrPending && lsr.temt
    {
      if !lsr.thre {
        transmitArmed := true;
      }
      if lsr.thre {
        ReportEmpty();
      }
    }

    /** Both empty flags and the empty-register interrupt. */
    method ReportEmpty()
      requires Valid() && lsr.thre
      modifies this`lsr, this`thrPending, this`iir, this`irqLine
      ensures Valid() && IrqInStep() && thrPending && lsr == old(lsr).(temt := true)
      ensures Transmitter() == old(Transmitter())
    {
      lsr := lsr.(temt := true);
      thrPending := true;
      UpdateIrq();
    }

    /** The byte in the shift register goes out, or meets the limit and is held for a retry. */
    method Send() returns (held: bool)
      requires Valid()
      modifies this`tsrRetry, this`transmitArmed, this`output, this`charsSent
      ensures Valid()
      ensures var t := old(Transmitter());
              && held == (t.sent >= CHARS_PER_TICK && t.retry <= MAX_XMIT_RETRY)
              && Transmitter() ==
                 if held then Held(t)
                 else if t.sent >= CHARS_PER_TICK then t
                 else t.(output := t.output + [t.shift], sent := t.sent + 1, retry := 0)
    {
      held := false;
      if charsSent >= CHARS_PER_TICK {
        if tsrRetry <= MAX_XMIT_RETRY {
          tsrRetry := tsrRetry + 1;
          transmitArmed := true;
          held := true;
        }
      } else {
        output := output + [tsr];
        charsSent := charsSent + 1;
        tsrRetry := 0;
      }
    }

    /** The attempt proper, once a byte is in the shift register. */
    method Transmit()
      requires Valid() && IrqInStep()
      modifies this`tsrRetry, this`transmitArmed, this`output, this`charsSent, this`lsr, this`thrPending, this`iir,
               this`irqLine
      ensures Valid() && IrqInStep()
      ensures var t := old(Transmitter());
              Transmitter() == if t.sent >= CHARS_PER_TICK then Held(t) else Sent(t)
      ensures lsr.dr == old(lsr.dr)
      ensures old(charsSent) < CHARS_PER_TICK && lsr.thre ==> thrPending && lsr.temt
    {
      var held := Send();
      if !held {
        Continue();
      }
    }

    /**
     One attempt to send.  If it leaves the holding register empty without meeting the limit, the empty-register
     interrupt is pending and both empty flags are set.
     */
    method Xmit()
      requires Valid() && IrqInStep()
      modifies this`tsr, this`tsrRetry, this`transmitArmed, this`output, this`charsSent, this`lsr, this`thrPending, this`rbr,
               this`timeoutArmed, this`iir, this`irqLine, xmit`count, xmit`tail, recv, recv.data
      ensures Valid() && IrqInStep()
      ensures (loopback || old(charsSent) < CHARS_PER_TICK) && lsr.thre ==> thrPending && lsr.temt
      ensures !loopback ==> Transmitter() == Attempted(old(Transmitter()))
      ensures !loopback ==> recv.Contents() == old(recv.Contents()) && rbr == old(rbr) && lsr.dr == old(lsr.dr)
    {
      if loopback {
        XmitBack();
      } else {
        XmitOut();
      }
    }

    /** Outside loopback mode the byte is sent or held, and nothing is received. */
    method XmitOut()
      requires Valid() && IrqInStep()
      modifies this`tsr, this`tsrRetry, this`transmitArmed, this`output, this`charsSent, this`lsr, this`thrPending, this`iir,
               this`irqLine, xmit`count, xmit`tail
      ensures Valid() && IrqInStep() && lsr.dr == old(lsr.dr)
      ensures Transmitter() == Attempted(old(Transmitter()))
      ensures old(charsSent) < CHARS_PER_TICK && lsr.thre ==> thrPending && lsr.temt
    {
      Load();
      Transmit();
    }

    /** In loopback mode the byte comes straight back. */
    method XmitBack()
      requires Valid() && IrqInStep()
      modifies this`tsr, this`rbr, this`lsr, this`timeoutArmed, this`transmitArmed, this`thrPending, this`iir, this`irqLine,
               xmit`count, xmit`tail, recv, recv.data
      ensures Valid() && IrqInStep()
      ensures lsr.thre ==> thrPending && lsr.temt
    {
      Load();
      Receive1(tsr);
      Continue();
    }

    /** The byte joins the queue, which is no longer empty. */
    method StoreThr(val: Byte)
      requires Valid()
      modifies this`thr, this`thrPending, this`lsr, xmit, xmit.data
      ensures Valid()
      ensures Transmitter() == Stored(old(Transmitter()), val)
      ensures lsr == old(lsr).(thre := false, temt := old(lsr.temt) && !fcr.fe)
    {
      thr := val;
      if fcr.fe {
        var _ := xmit.Put(true, val);
        thrPending := false;
        lsr := lsr.(temt := false, thre := false);
      } else {
        thrPending := false;
        lsr := lsr.(thre := false);
      }
    }

    /** The guest writes the transmit register. */
    method WriteThr(val: Byte)
      requires Valid() && IrqInStep()
      modifies this`thr, this`tsr, this`tsrRetry, this`transmitArmed, this`output, this`charsSent, this`lsr, this`thrPending, this`rbr,
               this`timeoutArmed, this`iir, this`irqLine,
               xmit, xmit.data, recv, recv.data
      ensures Valid() && IrqInStep()
      ensures (loopback || old(charsSent) < CHARS_PER_TICK) && lsr.thre ==>
                thrPending && lsr.temt && (ier.thri ==> irqLine)
      ensures !loopback ==> Transmitter() == Written(old(Transmitter()), val)
    {
      Enqueue(val);
      Xmit();
    }

    method Enqueue(val: Byte)
      requires Valid()
      modifies this`thr, this`thrPending, this`lsr, this`iir, this`irqLine, xmit, xmit.data
      ensures Valid() && IrqInStep()
      ensures Transmitter() == Stored(old(Transmitter()), val)
    {
      StoreThr(val);
      UpdateIrq();
    }

    /** The one-shot transmit timer expires. */
    method TransmitTick()
      requires Valid() && IrqInStep()
      modifies this`tsr, this`tsrRetry, this`transmitArmed, this`output, this`charsSent, this`lsr, this`thrPending, this`rbr,
               this`timeoutArmed, this`iir, this`irqLine, xmit`count, xmit`tail, recv, recv.data
      ensures Valid() && IrqInStep()
      ensures lsr.thre ==> thrPending && lsr.temt && (ier.thri ==> irqLine)
      ensures !loopback ==> Transmitter() == Ticked(old(Transmitter()))
    {
      transmitArmed := false;
      charsSent := 0;
      Xmit();
    }

    // ---- Registers -------------------------------------------------------------------------------------

    /** With the modem interrupt enabled the lines are polled. */
    method PollLines()
      requires Valid()
      modifies this`msr, this`iir, this`irqLine, this`pollMsl
      ensures msr == if ier.msi then Polled(old(msr)) else old(msr)
      ensures if msr != old(msr) then IrqInStep() else iir == old(iir) && irqLine == old(irqLine)
    {
      if ier.msi {
        pollMsl := 1;
        UpdateMsl();
      } else {
        pollMsl := 0;
      }
    }

    /** Whether a write of the interrupt enables makes the source consult the encoder, or needs none. */
    ghost predicate IerWriteFollowed(val: Ier)
      reads this, recv
    {
      || lsr.thre
      || (val.msi && Polled(msr) != msr)
      || SameAnswer(ier, val, lsr, msr, timeoutPending, !fcr.fe || recv.count >= recv.itl)
    }

    /**
     The interrupt enables.  The encoder is consulted only if the holding register is empty or a modem line changed;
     otherwise the identification register and the line stay, and that is right exactly if the interrupts enabled or
     disabled make no difference to them.
     */
    method WriteIer(val: Ier)
      requires Valid() && IrqInStep()
      modifies this`ier, this`pollMsl, this`msr, this`thrPending, this`iir, this`irqLine
      ensures Valid() && ier == val && thrPending == lsr.thre
      ensures IrqInStep() <==> old(IerWriteFollowed(val))
    {
      SameAnswerIff(ier, val, lsr, msr, timeoutPending, !fcr.fe || recv.count >= recv.itl);
      ier := val;
      PollLines();
      if lsr.thre {
        thrPending := true;
        UpdateIrq();
      }
    }

    /**
     The FIFO control register; `exact` tells whether the byte written equals the register as it is.  Changing the
     enable bit flushes both FIFOs.
     */
    method WriteFcr(val: Fcr, resetXmit: bool, resetRecv: bool, exact: bool)
      requires Valid() && IrqInStep()
      requires exact ==> val == fcr && !resetXmit && !resetRecv
      modifies this`timeoutArmed, this`timeoutPending, this`fcr, this`iirFifo, this`iir, this`irqLine, recv, recv.data, xmit,
               xmit.data
      ensures Valid() && IrqInStep() && fcr == val
      ensures var flush := val.fe != old(fcr.fe);
              && Transmitter() ==
                 (if resetXmit || flush then Flushed(old(Transmitter()), val.fe) else old(Transmitter()))
              && (resetRecv || flush ==> recv.Contents() == [] && !timeoutPending && !timeoutArmed)
              && (!resetRecv && !flush ==>
                    recv.Contents() == old(recv.Contents())
                    && timeoutPending == old(timeoutPending) && timeoutArmed == old(timeoutArmed))
    {
      if !exact {
        var flush := val.fe != fcr.fe;
        ChangeFcr(val, resetXmit || flush, resetRecv || flush);
      }
    }

    method ChangeFcr(val: Fcr, transmit: bool, receive: bool)
      requires Valid()
      modifies this`timeoutArmed, this`timeoutPending, this`fcr, this`iirFifo, this`iir, this`irqLine, recv, recv.data, xmit,
               xmit.data
      ensures Valid() && IrqInStep() && fcr == val
      ensures Transmitter() ==
              if transmit then Flushed(old(Transmitter()), val.fe) else old(Transmitter()).(fifoMode := val.fe)
      ensures if receive then recv.Contents() == [] && !timeoutPending && !timeoutArmed
              else recv.Contents() == old(recv.Contents())
                   && timeoutPending == old(timeoutPending) && timeoutArmed == old(timeoutArmed)
    {
      ControlFifos(val, transmit, receive);
      UpdateIrq();
    }

    method ControlFifos(val: Fcr, transmit: bool, receive: bool)
      requires Valid()
      modifies this`timeoutArmed, this`timeoutPending, this`fcr, this`iirFifo, recv, recv.data, xmit, xmit.data
      ensures Valid() && fcr == val
      ensures Transmitter() ==
              if transmit then Flushed(old(Transmitter()), val.fe) else old(Transmitter()).(fifoMode := val.fe)
      ensures if receive then recv.Contents() == [] && !timeoutPending && !timeoutArmed
              else recv.Contents() == old(recv.Contents())
                   && timeoutPending == old(timeoutPending) && timeoutArmed == old(timeoutArmed)
    {
      Flush(transmit, receive);
      SetFcr(val);
    }

    method Flush(transmit: bool, receive: bool)
      requires Valid()
      modifies this`timeoutArmed, this`timeoutPending, recv, recv.data, xmit, xmit.data
      ensures Valid()
      ensures Transmitter() == if transmit then Flushed(old(Transmitter()), fcr.fe) else old(Transmitter())
      ensures if receive then recv.Contents() == [] && !timeoutPending && !timeoutArmed
              else recv.Contents() == old(recv.Contents())
                   && timeoutPending == old(timeoutPending) && timeoutArmed == old(timeoutArmed)
    {
      if receive {
        timeoutArmed := false;
        timeoutPending := false;
        recv.Clear();
      }
      if transmit {
        xmit.Clear();
      }
    }

    /** The bits that stick, with the trigger level they select. */
    method SetFcr(val: Fcr)
      requires Valid()
      modifies this`fcr, this`iirFifo, recv`itl
      ensures Valid() && fcr == val && recv.Contents() == old(recv.Contents())
      ensures Transmitter() == old(Transmitter()).(fifoMode := val.fe)
    {
      if val.fe {
        iirFifo := true;
        recv.SetTriggerLevel(TriggerLevel(val.level));
      } else {
        iirFifo := false;
      }
      fcr := val;
    }

    method WriteMcr(loop: bool)
      requires Valid() && IrqInStep()
      modifies this`loopback
      ensures Valid() && IrqInStep() && loopback == loop
    {
      loopback := loop;
    }

    method ReadRbr() returns (ret: Byte)
      requires Valid() && IrqInStep()
      modifies this`lsr, this`timeoutArmed, this`timeoutPending, this`iir, this`irqLine, recv`count, recv`tail
      ensures Valid() && IrqInStep() && Transmitter() == old(Transmitter())
      ensures !fcr.fe ==> ret == rbr && !lsr.dr && recv.Contents() == old(recv.Contents())
      ensures fcr.fe && old(recv.Contents()) != [] ==>
                ret == old(recv.Contents())[0] && recv.Contents() == old(recv.Contents())[1..]
      ensures fcr.fe && old(recv.Contents()) == [] ==> ret == 0 && recv.Contents() == []
      ensures fcr.fe ==> !timeoutPending && lsr.dr == (old(lsr.dr) && recv.Contents() != [])
      ensures lsr == old(lsr).(dr := lsr.dr, bi := lsr.bi)
    {
      ret := ReadByte();
      UpdateIrq();
    }

    method ReadByte() returns (ret: Byte)
      requires Valid()
      modifies this`lsr, this`timeoutArmed, this`timeoutPending, recv`count, recv`tail
      ensures Valid() && Transmitter() == old(Transmitter())
      ensures lsr == old(lsr).(dr := lsr.dr, bi := lsr.bi)
      ensures if fcr.fe then
                && !timeoutPending && lsr.dr == (old(lsr.dr) && recv.Contents() != [])
                && old(recv.Contents()) == (if old(recv.count) == 0 then [] else [ret] + recv.Contents())
                && (old(recv.count) == 0 ==> ret == 0 && recv.Contents() == [])
              else ret == rbr && !lsr.dr && recv.Contents() == old(recv.Contents())
    {
      if fcr.fe {
        ret := TakeByte();
      } else {
        ret := rbr;
        lsr := lsr.(dr := false, bi := false);
      }
    }

    /** The oldest byte of the receive FIFO, with the timeout restarted while others remain. */
    method TakeByte() returns (ret: Byte)
      requires Valid()
      modifies this`lsr, this`timeoutArmed, this`timeoutPending, recv`count, recv`tail
      ensures Valid() && !timeoutPending && lsr == old(lsr).(dr := lsr.dr, bi := lsr.bi)
      ensures lsr.dr == (old(lsr.dr) && recv.Contents() != [])
      ensures if old(recv.Contents()) == [] then ret == 0 && recv.Contents() == []
              else ret == old(recv.Contents())[0] && recv.Contents() == old(recv.Contents())[1..]
    {
      TakenBytes(recv.Queue());
      ret := recv.Get();
      if recv.count == 0 {
        lsr := lsr.(dr := false, bi := false);
      } else {
        timeoutArmed := true;
      }
      timeoutPending := false;
    }

    method ReadIir() returns (ret: Cause)
      requires Valid() && IrqInStep()
      modifies this`thrPending, this`iir, this`irqLine
      ensures Valid() && IrqInStep() && ret == old(iir)
      ensures ret == TransmitEmpty ==> iir in {NoInterrupt, ModemStatus} && !thrPending
      ensures ret != TransmitEmpty ==> iir == ret && thrPending == old(thrPending)
    {
      ret := iir;
      if ret == TransmitEmpty {
        thrPending := false;
        UpdateIrq();
      }
    }

    method ReadLsr() returns (ret: Lsr)
      requires Valid() && IrqInStep()
      modifies this`lsr, this`iir, this`irqLine
      ensures Valid() && IrqInStep() && ret == old(lsr) && lsr == ret.(bi := false, oe := false)
    {
      ret := lsr;
      if lsr.bi || lsr.oe {
        lsr := lsr.(bi := false, oe := false);
        UpdateIrq();
      }
    }

    /** Outside loopback the lines are polled, and reading clears the change bits. */
    method ReadMsr() returns (ret: Msr)
      requires Valid() && IrqInStep() && !loopback
      modifies this`msr, this`iir, this`irqLine
      ensures Valid() && IrqInStep()
      ensures ret == Polled(old(msr)) && msr == ret.(ddcd := false, teri := false, ddsr := false, dcts := false)
    {
      UpdateMsl();
      ret := msr;
      if msr.AnyDelta() {
        msr := msr.(ddcd := false, teri := false, ddsr := false, dcts := false);
        UpdateIrq();
      }
    }

    // ---- Receiving -------------------------------------------------------------------------------------

    method FifoTimeout()
      requires Valid() && IrqInStep()
      modifies this`timeoutArmed, this`timeoutPending, this`iir, this`irqLine
      ensures Valid() && IrqInStep() && !timeoutArmed && timeoutPending == (old(timeoutPending) || recv.count > 0)
      ensures recv.count > 0 && ier.rdi ==> irqLine
    {
      timeoutArmed := false;
      if recv.count > 0 {
        timeoutPending := true;
        UpdateIrq();
      }
    }

    /** One byte arrives: into the FIFO, or into the receive register. */
    method Receive1(c: Byte)
      requires Valid()
      modifies this`rbr, this`lsr, this`timeoutArmed, this`iir, this`irqLine, recv, recv.data
      ensures Valid() && IrqInStep() && lsr.dr && recv.itl == old(recv.itl)
      ensures lsr == old(lsr).(dr := true, oe := old(lsr.oe) || if fcr.fe then old(recv.count) == FIFO_LENGTH
                                                                else old(lsr.dr))
      ensures fcr.fe && old(recv.count) < FIFO_LENGTH ==> recv.Contents() == old(recv.Contents()) + [c]
      ensures fcr.fe && old(recv.count) == FIFO_LENGTH ==> recv.Contents() == old(recv.Contents())
      ensures fcr.fe ==> rbr == old(rbr) && timeoutArmed
      ensures !fcr.fe ==> rbr == c && recv.Contents() == old(recv.Contents())
    {
      if fcr.fe {
        ReceiveFifo(c);
      } else {
        ReceiveRegister(c);
      }
      UpdateIrq();
    }

    method ReceiveRegister(c: Byte)
      requires Valid()
      modifies this`rbr, this`lsr
      ensures Valid() && rbr == c && lsr == old(lsr).(dr := true, oe := old(lsr.oe) || old(lsr.dr))
    {
      if lsr.dr {
        lsr := lsr.(oe := true);
      }
      rbr := c;
      lsr := lsr.(dr := true);
    }

    method ReceiveFifo(c: Byte)
      requires Valid()
      modifies this`lsr, this`timeoutArmed, recv, recv.data
      ensures Valid() && recv.itl == old(recv.itl) && timeoutArmed
      ensures lsr == old(lsr).(dr := true, oe := old(lsr.oe) || old(recv.count) == FIFO_LENGTH)
      ensures recv.Contents() == old(recv.Contents()) + if old(recv.count) < FIFO_LENGTH then [c] else []
    {
      var overrun := recv.Put(false, c);
      if overrun {
        lsr := lsr.(oe := true);
      }
      lsr := lsr.(dr := true);
      timeoutArmed := true;
    }

    /** How many bytes the host may pass on: up to the trigger level, then one at a time, but none at the level. */
    function CanReceive(): nat
      reads this, recv
    {
      if fcr.fe then
        if recv.count < FIFO_LENGTH then
          if recv.count <= recv.itl then recv.itl - recv.count else 1
        else 0
      else if lsr.dr then 0 else 1
    }

    /** That is never more than there is room for, and nothing exactly if there is no room or the level is reached. */
    lemma CanReceiveIff()
      requires Valid()
      ensures CanReceive() <= Room()
      ensures CanReceive() == 0 <==> Room() == 0 || (fcr.fe && recv.count == recv.itl)
      ensures fcr.fe && recv.count < recv.itl ==> recv.count + CanReceive() == recv.itl
    {
    }

    /** The bytes received so far, newest last. */
    ghost function Received(): seq<Byte>
      reads this, recv, recv.data, xmit
      requires Valid()
    {
      if fcr.fe then recv.Contents() else if lsr.dr then [rbr] else []
    }

    /**
     The input loop, run when the host has bytes and again when the retry timer expires.  The host may add bytes at
     any time during it; `arrived` is what it added.  The loop ends all the same, every byte it takes is received, in
     order and without an overrun, and it stops only with the host buffer empty or the retry timer set.
     */
    method DrainHost(host: Ring) returns (ghost arrived: seq<Byte>, ghost taken: seq<Byte>, ghost sawEmpty: bool)
      requires Valid() && IrqInStep() && host.Valid()
      requires host.buf != recv.data && host.buf != xmit.data
      modifies this`rbr, this`lsr, this`timeoutArmed, this`moreCharsArmed, this`iir, this`irqLine, recv, recv.data, host,
               host.buf
      ensures Valid() && IrqInStep() && host.Valid()
      ensures old(host.Contents()) + arrived == taken + host.Contents()
      ensures Received() == old(Received()) + taken
      ensures lsr.oe == old(lsr.oe)
      ensures Transmitter() == old(Transmitter())
      ensures (sawEmpty && host.Contents() == []) || (CanReceive() == 0 && moreCharsArmed)
    {
      arrived, taken, sawEmpty := [], [], false;
      while CanReceive() != 0
        invariant Valid() && IrqInStep() && host.Valid()
        invariant old(host.Contents()) + arrived == taken + host.Contents()
        invariant Received() == old(Received()) + taken
        invariant lsr.oe == old(lsr.oe)
        invariant Transmitter() == old(Transmitter())
        invariant !sawEmpty
        decreases Room()
      {
        ghost var before := host.Contents();
        ghost var burst, byte;
        var ok;
        burst, ok, byte := DrainOne(host);
        Assoc(old(host.Contents()), arrived, burst);
        Assoc(taken, before, burst);
        Assoc(taken, byte, host.Contents());
        Assoc(old(Received()), taken, byte);
        arrived, taken := arrived + burst, taken + byte;
        if !ok {
          sawEmpty := true;
          break;
        }
      }
      SetRetryTimer();
    }

    /** The retry timer is set while no more can be received. */
    method SetRetryTimer()
      requires Valid() && IrqInStep()
      modifies this`moreCharsArmed
      ensures Valid() && IrqInStep()
      ensures Received() == old(Received()) && CanReceive() == old(CanReceive())
      ensures Transmitter() == old(Transmitter())
      ensures CanReceive() == 0 ==> moreCharsArmed
    {
      if CanReceive() == 0 {
        moreCharsArmed := true;
      }
    }

    function Room(): nat
      reads this, recv
    {
      if fcr.fe then if recv.count <= FIFO_LENGTH then FIFO_LENGTH - recv.count else 0
      else if lsr.dr then 0 else 1
    }

    /** One turn of the input loop: the host acts, and its oldest byte, if any, is received. */
    method DrainOne(host: Ring) returns (ghost burst: seq<Byte>, ok: bool, ghost byte: seq<Byte>)
      requires Valid() && IrqInStep() && host.Valid() && CanReceive() != 0
      requires host.buf != recv.data && host.buf != xmit.data
      modifies this`rbr, this`lsr, this`timeoutArmed, this`iir, this`irqLine, recv, recv.data, host, host.buf
      ensures Valid() && IrqInStep() && host.Valid()
      ensures old(host.Contents()) + burst == byte + host.Contents()
      ensures Received() == old(Received()) + byte
      ensures if ok then |byte| == 1 && Room() < old(Room()) else byte == host.Contents() == []
      ensures lsr.oe == old(lsr.oe)
      ensures Transmitter() == old(Transmitter())
    {
      var c;
      burst, ok, c := HostTurn(host);
      byte := if ok then [c] else [];
      if ok {
        Accept(c);
      }
    }

    /** There is room for the byte, so it joins the bytes received without an overrun. */
    method Accept(c: Byte)
      requires Valid() && CanReceive() != 0
      modifies this`rbr, this`lsr, this`timeoutArmed, this`iir, this`irqLine, recv, recv.data
      ensures Valid() && IrqInStep()
      ensures Received() == old(Received()) + [c] && Room() < old(Room())
      ensures lsr.oe == old(lsr.oe)
      ensures Transmitter() == old(Transmitter())
    {
      Receive1(c);
    }
  }

  /** The host acts, and its oldest byte is taken. */
  method HostTurn(host: Ring) returns (ghost burst: seq<Byte>, ok: bool, c: Byte)
    requires host.Valid()
    modifies host, host.buf
    ensures host.Valid()
    ensures old(host.Contents()) + burst == if ok then [c] + host.Contents() else []
    ensures !ok ==> host.Contents() == []
  {
    burst := HostActs(host);
    ok, c := host.Dequeue();
  }

  lemma Assoc(a: seq<Byte>, b: seq<Byte>, c: seq<Byte>)
    ensures a + b + c == a + (b + c)
  {
  }

  /** The host adds any number of bytes while there is room. */
  method HostActs(host: Ring) returns (ghost burst: seq<Byte>)
    requires host.Valid()
    modifies host`tail, host.buf
    ensures host.Valid() && host.Contents() == old(host.Contents()) + burst
  {
    burst := [];
    var n: nat :| n >= 0;
    for i := 0 to n
      invariant host.Valid() && host.Contents() == old(host.Contents()) + burst
    {
      var c: Byte :| c < 256;
      if !host.Full() {
        var _ := host.Forward(c);
        burst := burst + [c];
      }
    }
  }
}
