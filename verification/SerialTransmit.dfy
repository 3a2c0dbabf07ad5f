/**
 The throttled transmitter of the 16550A emulation, over the queue of bytes it still has to send: at most sixteen bytes
 go out between two expiries of the transmit timer, and a byte that meets the limit waits in the shift register.
 */
module SerialTransmit {
  import opened Chains
  import opened Basics
  import opened SerialQueue

  const CHARS_PER_TICK := 16
  const MAX_XMIT_RETRY := 4

  /**
   `thre` is the holding-register-empty flag, `shift` the shift register, which is still to be sent while `retry` is
   positive, `sent` the bytes output since the last expiry, and `armed` whether the transmit timer is set.
   */
  datatype Tx = Tx(fifoMode: bool, fifo: Queue, thr: Byte, thre: bool, shift: Byte, retry: int, sent: nat,
                   armed: bool, output: seq<Byte>)
  {
    function Waiting(): seq<Byte> {
      if fifoMode then Bytes(fifo) else if thre then [] else [thr]
    }

    function InShift(): seq<Byte> {
      if retry > 0 then [shift] else []
    }

    function Pending(): seq<Byte> {
      InShift() + Waiting()
    }

    predicate Full() {
      |Waiting()| == if fifoMode then FIFO_LENGTH else 1
    }

    /** The write position of the FIFO is where its contents end. */
    predicate Aligned() {
      fifoMode ==> fifo.skew == 0
    }

    /** The timer is set exactly while something is to be sent, and the empty flag is right. */
    predicate Inv() {
      && 0 <= retry <= MAX_XMIT_RETRY + 1
      && sent <= CHARS_PER_TICK
      && (retry > 0 ==> sent == CHARS_PER_TICK)
      && (thre <==> Waiting() == [])
      && (armed <==> Pending() != [])
    }
  }

  /** The next byte moves to the shift register; an empty FIFO yields a NUL. */
  function Loaded(t: Tx): Tx {
    if t.retry > 0 then t
    else if !t.fifoMode then t.(shift := t.thr, thre := true)
    else t.(shift := Oldest(t.fifo), fifo := Taken(t.fifo), thre := t.thre || Taken(t.fifo).count == 0)
  }

  /** The timer is set for what is left in the queue. */
  function Continued(t: Tx): Tx {
    if t.thre then t else t.(armed := true)
  }

  /** The byte in the shift register goes out. */
  function Sent(t: Tx): Tx {
    Continued(t.(output := t.output + [t.shift], sent := t.sent + 1, retry := 0))
  }

  /** The byte in the shift register waits for an expiry; after five retries only the queue sets the timer. */
  function Held(t: Tx): Tx {
    if t.retry <= MAX_XMIT_RETRY then t.(retry := t.retry + 1, armed := true) else Continued(t)
  }

  /** One attempt to send, outside loopback mode. */
  function Attempted(t: Tx): Tx {
    var t1 := Loaded(t);
    if t1.sent >= CHARS_PER_TICK then Held(t1) else Sent(t1)
  }

  /** The queue with a new byte, before the attempt to send it. */
  function Stored(t: Tx, c: Byte): Tx {
    t.(thr := c, fifo := if t.fifoMode then WithByte(t.fifo, c) else t.fifo, thre := false)
  }

  /** The guest writes a byte. */
  function Written(t: Tx, c: Byte): Tx {
    Attempted(Stored(t, c))
  }

  /** The one-shot transmit timer expires. */
  function Ticked(t: Tx): Tx {
    Attempted(t.(armed := false, sent := 0))
  }

  /** The transmit FIFO is reset, possibly with a change of mode; the flags and the timer stay as they are. */
  function Flushed(t: Tx, fifoMode: bool): Tx {
    t.(fifo := EMPTY, fifoMode := fifoMode)
  }

  /** Something is pending, and the empty flag agrees with the queue. */
  predicate Loadable(t: Tx) {
    && 0 <= t.retry <= MAX_XMIT_RETRY + 1 && t.sent <= CHARS_PER_TICK
    && (t.thre <==> t.Waiting() == [])
    && t.Pending() != []
  }

  /** Loading takes the first pending byte into the shift register. */
  lemma LoadedTakes(t: Tx)
    requires Loadable(t)
    ensures var u := Loaded(t);
            && [u.shift] + u.Waiting() == t.Pending()
            && (u.thre <==> u.Waiting() == [])
            && u == t.(shift := u.shift, fifo := u.fifo, thre := u.thre)
            && u.fifo.skew == t.fifo.skew
  {
    if t.fifoMode {
      TakenBytes(t.fifo);
    }
  }

  lemma SentPending(t: Tx)
    ensures var u := Sent(t);
            && u.output == t.output + [t.shift] && u.sent == t.sent + 1
            && u.Pending() == t.Waiting() && u.fifo == t.fifo
  {
  }

  lemma HeldPending(t: Tx)
    requires t.retry >= 0
    ensures var u := Held(t);
            && u.output == t.output && u.sent == t.sent
            && u.Pending() == [t.shift] + t.Waiting() && u.fifo == t.fifo
  {
  }

  /** An attempt sends the first pending byte or keeps it. */
  lemma AttemptConserves(t: Tx)
    requires Loadable(t)
    ensures var u := Attempted(t);
            && (if t.sent < CHARS_PER_TICK then
                  && u.output == t.output + t.Pending()[..1] && u.Pending() == t.Pending()[1..]
                  && u.sent == t.sent + 1
                else u.output == t.output && u.Pending() == t.Pending() && u.sent == t.sent)
            && u.fifoMode == t.fifoMode && u.fifo.skew == t.fifo.skew
  {
    LoadedTakes(t);
    var t1 := Loaded(t);
    if t1.sent < CHARS_PER_TICK {
      SentPending(t1);
    } else {
      HeldPending(t1);
    }
  }

  /** An attempt leaves the timer right, if one that is still set will have something left to send. */
  lemma AttemptKeepsTimer(t: Tx)
    requires Loadable(t)
    requires t.armed && t.sent < CHARS_PER_TICK ==> |t.Pending()| >= 2
    requires t.retry > 0 && t.sent == CHARS_PER_TICK ==> t.armed
    ensures Attempted(t).Inv()
  {
    LoadedTakes(t);
    var t1 := Loaded(t);
    if t1.sent < CHARS_PER_TICK {
      SentPending(t1);
    } else {
      HeldPending(t1);
    }
  }

  // ---- Writes ------------------------------------------------------------------------------------------

  /** Nothing is lost, sent twice or made up by a write. */
  predicate Conserves(t: Tx, c: Byte) {
    var u := Written(t, c);
    u.output + u.Pending() == t.output + t.Pending() + [c]
  }

  /** Before the attempt there is something to send, and the stream is what the queue makes of the byte. */
  lemma StoredPending(t: Tx, c: Byte)
    requires t.Inv()
    ensures var s := Stored(t, c);
            && Loadable(s)
            && s.output == t.output && s.sent == t.sent && s.armed == t.armed && s.InShift() == t.InShift()
            && |s.Waiting()| == |t.Waiting()| + (if t.Full() then 0 else 1)
            && s.Pending() == t.InShift() + s.Waiting()
  {
  }

  /** A write moves bytes from the queue to the output, and nothing else. */
  lemma WrittenStream(t: Tx, c: Byte)
    requires t.Inv()
    ensures var u := Written(t, c);
            && u.output + u.Pending() == t.output + (t.InShift() + Stored(t, c).Waiting())
            && |u.output| - |t.output| == u.sent - t.sent
            && u.fifoMode == t.fifoMode && u.fifo.skew == Stored(t, c).fifo.skew
  {
    var s := Stored(t, c);
    StoredPending(t, c);
    AttemptConserves(s);
    FirstAndRest(t.output, s.Pending());
  }

  lemma FirstAndRest(a: seq<Byte>, b: seq<Byte>)
    requires b != []
    ensures a + b[..1] + b[1..] == a + b
  {
  }

  lemma SameStream(a: seq<Byte>, h: seq<Byte>, w: seq<Byte>, v: seq<Byte>, c: Byte)
    ensures a + (h + w) == a + (h + v) + [c] <==> w == v + [c]
  {
    assert a + (h + v) + [c] == a + (h + (v + [c]));
    assert (a + (h + w))[|a|..] == h + w && (a + (h + (v + [c])))[|a|..] == h + (v + [c]);
    assert (h + w)[|h|..] == w && (h + (v + [c]))[|h|..] == v + [c];
  }

  /**
   A write is conserved exactly if there is room and, in FIFO mode, the byte joins the end of the contents; a write
   into a full FIFO upsets that for the writes that follow it.
   */
  lemma WriteConservesIff(t: Tx, c: Byte)
    requires t.Inv()
    ensures Conserves(t, c) <==> !t.Full() && (t.fifoMode ==> Appends(t.fifo, c))
  {
    WrittenStream(t, c);
    StoredPending(t, c);
    SameStream(t.output, t.InShift(), Stored(t, c).Waiting(), t.Waiting(), c);
    AppendsIff(t.fifo, c);
  }

  /** Whatever byte the guest writes is conserved exactly if there is room and the FIFO is aligned. */
  lemma WritesConserveIff(t: Tx)
    requires t.Inv()
    ensures (forall c: Byte :: Conserves(t, c)) <==> !t.Full() && t.Aligned()
  {
    AppendsAllIff(t.fifo);
    forall c: Byte
      ensures Conserves(t, c) <==> !t.Full() && (t.fifoMode ==> Appends(t.fifo, c))
    {
      WriteConservesIff(t, c);
    }
    assert (forall c: Byte :: Conserves(t, c)) ==> Conserves(t, 0);
    if t.fifoMode && (forall c: Byte :: Conserves(t, c)) {
      assert forall c: Byte :: Appends(t.fifo, c) by {
        forall c: Byte
          ensures Appends(t.fifo, c)
        {
          assert Conserves(t, c);
        }
      }
    }
  }

  /** A byte written while there is room, into an aligned FIFO, joins the end of what is pending. */
  lemma WriteConserves(t: Tx, c: Byte)
    requires t.Inv() && t.Aligned() && !t.Full()
    ensures var u := Written(t, c);
            && Conserves(t, c)
            && u.Inv() && u.Aligned()
            && |u.output| - |t.output| == u.sent - t.sent
  {
    WriteConservesIff(t, c);
    WrittenStream(t, c);
    StoredPending(t, c);
    AttemptKeepsTimer(Stored(t, c));
  }

  /**
   The damage done by a write into a full FIFO outlasts it: two expiries later there is room again and all else is in
   order, yet not every byte written then is conserved.
   */
  lemma OverwriteLosesLater(t: Tx, c: Byte)
    requires t.Inv() && t.fifoMode && t.Full() && t.Aligned()
    ensures var u := Ticked(Ticked(Written(t, c)));
            u.Inv() && !u.Full() && exists d: Byte :: !Conserves(u, d)
  {
    StoredPending(t, c);
    AttemptConserves(Stored(t, c));
    AttemptKeepsTimer(Stored(t, c));
    var w := Written(t, c);
    TickSendsNext(w);
    TickSendsNext(Ticked(w));
    WritesConserveIff(Ticked(Ticked(w)));
  }

  /** An expiry sends exactly the first pending byte. */
  lemma TickSendsNext(t: Tx)
    requires t.Inv() && t.armed
    ensures var u := Ticked(t);
            && u.Inv()
            && u.output == t.output + t.Pending()[..1]
            && u.Pending() == t.Pending()[1..]
            && u.sent == 1 && u.retry == 0
            && u.fifoMode == t.fifoMode && u.fifo.skew == t.fifo.skew
  {
    var s := t.(armed := false, sent := 0);
    assert s.Pending() == t.Pending();
    AttemptConserves(s);
    AttemptKeepsTimer(s);
  }

  // ---- Runs --------------------------------------------------------------------------------------------

  datatype Event = Write(c: Byte) | Tick | Flush(fifoMode: bool)

  /**
   The transmitter with the bytes written so far, the length of the output at the last expiry, and the number of writes
   into a full FIFO since it was last reset.
   */
  datatype History = History(tx: Tx, written: seq<Byte>, atTick: nat, overwrites: nat)

  function Step(h: History, e: Event): History {
    match e
    case Write(c) =>
      History(Written(h.tx, c), h.written + [c], h.atTick,
              if h.tx.fifoMode && h.tx.Full() then h.overwrites + 1 else h.overwrites)
    case Tick => History(Ticked(h.tx), h.written, |h.tx.output|, h.overwrites)
    case Flush(fifoMode) => History(Flushed(h.tx, fifoMode), h.written, h.atTick, 0)
  }

  /** What holds over every run, lawful or not: whatever is to be sent has the timer set, but not the other way round. */
  predicate Loose(t: Tx) {
    && 0 <= t.retry <= MAX_XMIT_RETRY + 1 && t.sent <= CHARS_PER_TICK
    && (t.retry > 0 ==> t.sent == CHARS_PER_TICK)
    && (t.thre ==> t.Waiting() == [])
    && (t.retry > 0 || !t.thre ==> t.armed)
  }

  /** Runs that start in order start in this. */
  lemma InvIsLoose(t: Tx)
    requires t.Inv()
    ensures Loose(t)
  {
  }

  lemma WrittenLoose(t: Tx, c: Byte)
    requires Loose(t)
    ensures Loose(Written(t, c))
  {
    var s := Stored(t, c);
    assert s.fifoMode ==> Bytes(s.fifo) != [];
  }

  lemma TickedLoose(t: Tx)
    requires Loose(t)
    ensures Loose(Ticked(t))
  {
  }

  /** The skew counts the overwrites modulo the length of the ring, and the holding register has the last byte. */
  predicate Tracked(h: History) {
    && Loose(h.tx)
    && h.tx.fifo.skew == h.overwrites % FIFO_LENGTH
    && (h.written != [] ==> h.tx.thr == h.written[|h.written| - 1])
  }

  lemma StepTracked(h: History, e: Event)
    requires Tracked(h)
    ensures Tracked(Step(h, e))
  {
    match e {
      case Write(c) =>
        WrittenLoose(h.tx, c);
        AttemptKeepsQueue(Stored(h.tx, c));
      case Tick =>
        TickedLoose(h.tx);
        AttemptKeepsQueue(h.tx.(armed := false, sent := 0));
      case Flush(_) =>
    }
  }

  lemma AttemptKeepsQueue(t: Tx)
    ensures Attempted(t).fifo.skew == t.fifo.skew && Attempted(t).thr == t.thr
  {
  }

  /**
   Over every run, lawful or not: the FIFO is aligned exactly when its overwrites come in sixteens; what is pending has
   the timer set; and the next expiry sends the first pending byte or, exactly if none is pending, makes one up - a
   NUL in FIFO mode and otherwise the last byte written.
   */
  lemma EveryRun(h: History, events: seq<Event>)
    requires Tracked(h)
    ensures var r := Fold(Step, h, events);
            && Tracked(r)
            && (r.tx.fifoMode ==> (r.tx.Aligned() <==> r.overwrites % FIFO_LENGTH == 0))
            && (r.tx.Pending() != [] ==> r.tx.armed)
            && Ticked(r.tx).output
               == r.tx.output + if r.tx.Pending() != [] then r.tx.Pending()[..1] else [MadeUp(r.tx)]
  {
    forall g, e | Tracked(g)
      ensures Tracked(Step(g, e))
    {
      StepTracked(g, e);
    }
    FoldKeeps(Step, Tracked, (e: Event) => true, h, events);
    ExpirySends(Fold(Step, h, events).tx);
  }

  function MadeUp(t: Tx): Byte {
    if t.fifoMode then 0 else t.thr
  }

  lemma ExpirySends(t: Tx)
    requires Loose(t)
    ensures Ticked(t).output == t.output + if t.Pending() != [] then t.Pending()[..1] else [MadeUp(t)]
  {
  }

  /**
   The guest never writes into a full FIFO or holding register and resets or switches the FIFO only when no byte waits
   in it, and only a set timer expires.
   */
  predicate Law(h: History, e: Event) {
    match e
    case Write(_) => !h.tx.Full()
    case Tick => h.tx.armed
    case Flush(_) => h.tx.Waiting() == []
  }

  predicate Conserved(h: History) {
    && h.tx.Inv() && h.tx.Aligned()
    && h.written == h.tx.output + h.tx.Pending()
    && |h.tx.output| == h.atTick + h.tx.sent
  }

  lemma StepConserves(h: History, e: Event)
    requires Conserved(h) && Law(h, e)
    ensures Conserved(Step(h, e))
  {
    match e {
      case Write(c) =>
        WriteConserves(h.tx, c);
        StreamStep(h.written, h.tx, Written(h.tx, c), [c]);
      case Tick =>
        TickSendsNext(h.tx);
        FirstAndRest(h.tx.output, h.tx.Pending());
        StreamStep(h.written, h.tx, Ticked(h.tx), []);
      case Flush(mode) =>
        EmptyFlushKeeps(h.tx, mode);
        StreamStep(h.written, h.tx, Flushed(h.tx, mode), []);
    }
  }

  lemma StreamStep(written: seq<Byte>, t: Tx, u: Tx, bytes: seq<Byte>)
    requires written == t.output + t.Pending()
    requires u.output + u.Pending() == t.output + t.Pending() + bytes
    ensures written + bytes == u.output + u.Pending()
    ensures bytes == [] ==> written == u.output + u.Pending()
  {
  }

  lemma EmptyFlushKeeps(t: Tx, fifoMode: bool)
    requires t.Inv() && t.Waiting() == []
    ensures var f := Flushed(t, fifoMode);
            f.Inv() && f.Aligned() && f.Pending() == t.Pending() && f.output == t.output && f.sent == t.sent
  {
  }

  /**
   Over every lawful run the bytes written equal the bytes output, then the byte held in the shift register, then the
   FIFO; the timer is set exactly while something is pending, so no byte is stuck and no NUL is made up; and at most
   sixteen bytes have gone out since the last expiry.
   */
  lemma TransmitConserves(h: History, events: seq<Event>)
    requires Conserved(h) && Lawful(Step, Law, h, events)
    ensures var r := Fold(Step, h, events);
            && Conserved(r)
            && r.written == r.tx.output + r.tx.Pending()
            && (r.tx.armed <==> r.tx.Pending() != [])
            && |r.tx.output| <= r.atTick + CHARS_PER_TICK
  {
    forall g, e | Conserved(g) && Law(g, e)
      ensures Conserved(Step(g, e))
    {
      StepConserves(g, e);
    }
    LawfulKeeps(Step, Conserved, Law, h, events);
  }

  /** Left alone, the transmitter sends one pending byte at each expiry, in order, and then stops its timer. */
  lemma {:induction false} Drains(t: Tx)
    requires t.Inv()
    ensures var u := Repeat(Ticked, t, |t.Pending()|);
            u.Inv() && u.output == t.output + t.Pending() && u.Pending() == [] && !u.armed
    decreases |t.Pending()|
  {
    if t.Pending() != [] {
      TickSendsNext(t);
      Drains(Ticked(t));
      RepeatShift(Ticked, t, |t.Pending()| - 1);
      FirstAndRest(t.output, t.Pending());
    }
  }

  // ---- Resets ------------------------------------------------------------------------------------------

  /** What a flush leaves to be sent: of the waiting bytes, one NUL in FIFO mode and the last one written otherwise. */
  function LeftByFlush(t: Tx, fifoMode: bool): seq<Byte> {
    t.InShift() + if t.Waiting() == [] then [] else [MadeUp(Flushed(t, fifoMode))]
  }

  /**
   After a reset of the transmit FIFO or a change of mode, the transmitter sends the byte held in the shift register
   and then, exactly if bytes waited, one more: in FIFO mode a NUL that was never written, and otherwise the last byte
   written.  Then it stops its timer.
   */
  lemma FlushDrains(t: Tx, fifoMode: bool)
    requires t.Inv()
    ensures var left := LeftByFlush(t, fifoMode);
            var u := Repeat(Ticked, Flushed(t, fifoMode), |left|);
            u.Inv() && u.output == t.output + left && u.Pending() == [] && !u.armed
  {
    var f, left := Flushed(t, fifoMode), LeftByFlush(t, fifoMode);
    if t.retry > 0 {
      FlushSendsHeld(t, fifoMode);
      if !t.thre {
        FlushSendsLast(Ticked(f));
        Twice(f);
        Append(t.output, [t.shift], MadeUp(f));
      } else {
        Once(f);
      }
    } else if !t.thre {
      FlushSendsLast(f);
      Once(f);
    }
  }

  lemma Once(t: Tx)
    ensures Repeat(Ticked, t, 1) == Ticked(t)
  {
    assert Repeat(Ticked, t, 0) == t;
  }

  lemma Twice(t: Tx)
    ensures Repeat(Ticked, t, 2) == Ticked(Ticked(t))
  {
    Once(t);
  }

  lemma Append(a: seq<Byte>, b: seq<Byte>, c: Byte)
    ensures a + b + [c] == a + (b + [c])
  {
  }

  lemma FlushSendsHeld(t: Tx, fifoMode: bool)
    requires t.Inv() && t.retry > 0
    ensures var f := Flushed(t, fifoMode);
            Ticked(f) == f.(output := t.output + [t.shift], sent := 1, retry := 0, armed := !t.thre)
  {
  }

  lemma FlushSendsLast(f: Tx)
    requires f.fifo == EMPTY && !f.thre && f.retry == 0
    ensures var u := Ticked(f);
            u.Inv() && u.Pending() == [] && !u.armed && u.output == f.output + [MadeUp(f)]
  {
  }

  /** A flush loses nothing and makes nothing up exactly if what is left to be sent is what was pending. */
  lemma FlushConservesIff(t: Tx, fifoMode: bool)
    requires t.Inv()
    ensures LeftByFlush(t, fifoMode) == t.Pending()
            <==> t.Waiting() == [] || t.Waiting() == [MadeUp(Flushed(t, fifoMode))]
  {
    assert LeftByFlush(t, fifoMode)[|t.InShift()|..] == if t.Waiting() == [] then [] else [MadeUp(Flushed(t, fifoMode))];
    assert t.Pending()[|t.InShift()|..] == t.Waiting();
  }
}
