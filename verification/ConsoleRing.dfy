/**
 The console protocol between two virtual machines, as the interleaved steps of one sender and one receiver on a
 shared ring: storing a byte, publishing the tail, notifying, waking up, taking a snapshot of the tail, delivering
 byte by byte, and advancing the head.  Each step is atomic.
 */
module ConsoleRing {
  import opened Basics
  import opened Chains
  import opened SharedRing

  /** Where the sender is in a write. */
  datatype Sender = Ready | Stored(c: Byte) | Published(c: Byte)

  /** Where the receiver is in its notification handler. */
  datatype Receiver = Idle | Woken | Nonempty | Delivering(position: nat, limit: nat)

  /** The shared page with the notification, both programs, and what was published and delivered so far. */
  datatype State = State(buf: seq<Byte>, head: nat, tail: nat, notified: bool, sender: Sender, receiver: Receiver,
                         published: seq<Byte>, delivered: seq<Byte>)
  {
    ghost predicate InRange() {
      |buf| == BUFSIZE && head < BUFSIZE && tail < BUFSIZE
    }

    /** The first byte not yet delivered. */
    function Reached(): nat {
      if receiver.Delivering? then receiver.position else head
    }

    /** The first byte the receiver will not deliver before it looks at the tail again. */
    function Covered(): nat {
      match receiver
      case Idle => head
      case Delivering(_, limit) => limit
      case _ => tail
    }
  }

  datatype Step = Store(c: Byte) | Publish | Notify | Wake | Check | Snapshot | Deliver | Advance

  /** A step can be taken; the sender does not write into a full ring. */
  predicate Enabled(s: State, step: Step) {
    match step
    case Store(_) => s.sender.Ready? && !IsFull(s.head, s.tail)
    case Publish => s.sender.Stored?
    case Notify => s.sender.Published?
    case Wake => s.receiver.Idle? && s.notified
    case Check => s.receiver.Woken?
    case Snapshot => s.receiver.Nonempty?
    case Deliver => s.receiver.Delivering? && s.receiver.position != s.receiver.limit
    case Advance => s.receiver.Delivering? && s.receiver.position == s.receiver.limit
  }

  ghost function Stepped(s: State, step: Step): State {
    if !s.InRange() || !Enabled(s, step) || s.Reached() >= BUFSIZE then s
    else match step
      case Store(c) => s.(buf := s.buf[s.tail := c], sender := Stored(c))
      case Publish => s.(tail := Next(s.tail), published := s.published + [s.sender.c], sender := Published(s.sender.c))
      case Notify =>
        s.(notified := s.notified || s.sender.c == NEWLINE || IsFull(s.head, s.tail), sender := Ready)
      case Wake => s.(notified := false, receiver := Woken)
      case Check => s.(receiver := if s.head != s.tail then Nonempty else Idle)
      case Snapshot => s.(receiver := Delivering(s.head, s.tail))
      case Deliver =>
        s.(delivered := s.delivered + [s.buf[s.receiver.position]],
           receiver := Delivering(Next(s.receiver.position), s.receiver.limit))
      case Advance => s.(head := s.receiver.limit, receiver := Idle)
  }

  /** The head, the delivery position, the snapshot and the tail follow one another around the ring. */
  ghost predicate InOrder(s: State) {
    && s.InRange()
    && (s.receiver.Nonempty? ==> s.head != s.tail)
    && (s.receiver.Delivering? ==>
          && s.receiver.position < BUFSIZE && s.receiver.limit < BUFSIZE
          && s.receiver.limit != s.head
          && Used(s.head, s.receiver.position) <= Used(s.head, s.receiver.limit) <= Used(s.head, s.tail))
    && (s.sender.Stored? ==> !IsFull(s.head, s.tail) && s.buf[s.tail] == s.sender.c)
  }

  /** What is delivered, then what is between the delivery position and the tail, is what was published. */
  ghost predicate Conserved(s: State) {
    InOrder(s) && s.published == s.delivered + Between(s.buf, s.Reached(), s.tail)
  }

  lemma StoreKeeps(s: State, c: Byte)
    requires Conserved(s) && Enabled(s, Store(c))
    ensures Conserved(Stepped(s, Store(c)))
  {
    OrderedFull(s);
    BetweenAppend(s.buf, s.Reached(), s.tail, c);
  }

  /** The writer's slot is outside what is still to be delivered. */
  lemma OrderedFull(s: State)
    requires InOrder(s) && !IsFull(s.head, s.tail)
    ensures !IsFull(s.Reached(), s.tail)
    ensures Used(s.head, Next(s.tail)) == Used(s.head, s.tail) + 1
  {
    FullWriteEmpties(s.head, s.tail);
    if s.receiver.Delivering? {
      BetweenSplit(s.buf, s.head, s.receiver.position, s.tail);
    }
  }

  lemma PublishKeeps(s: State)
    requires Conserved(s) && Enabled(s, Publish)
    ensures Conserved(Stepped(s, Publish))
  {
    OrderedFull(s);
    BetweenAppend(s.buf, s.Reached(), s.tail, s.sender.c);
    assert s.buf[s.tail := s.sender.c] == s.buf;
    assert s.delivered + (Between(s.buf, s.Reached(), s.tail) + [s.sender.c])
        == s.delivered + Between(s.buf, s.Reached(), s.tail) + [s.sender.c];
  }

  lemma DeliverKeeps(s: State)
    requires Conserved(s) && Enabled(s, Deliver)
    ensures Conserved(Stepped(s, Deliver))
  {
    var p := s.receiver.position;
    BetweenSplit(s.buf, s.head, p, s.receiver.limit);
    BetweenSplit(s.buf, s.head, p, s.tail);
    BetweenTake(s.buf, p, s.tail);
    FullWriteEmpties(s.head, p);
    assert s.delivered + ([s.buf[p]] + Between(s.buf, Next(p), s.tail))
        == s.delivered + [s.buf[p]] + Between(s.buf, Next(p), s.tail);
  }

  lemma AdvanceKeeps(s: State)
    requires Conserved(s) && Enabled(s, Advance)
    ensures Conserved(Stepped(s, Advance))
    ensures !IsFull(s.receiver.limit, s.tail)
  {
    BetweenSplit(s.buf, s.head, s.receiver.limit, s.tail);
  }

  lemma StepConserves(s: State, step: Step)
    requires Conserved(s) && Enabled(s, step)
    ensures Conserved(Stepped(s, step))
  {
    match step {
      case Store(c) => StoreKeeps(s, c);
      case Publish => PublishKeeps(s);
      case Deliver => DeliverKeeps(s);
      case Advance => AdvanceKeeps(s);
      case _ =>
    }
  }

  // ---- Wake-ups ----------------------------------------------------------------------------------------

  /** The bytes the receiver will not look at unless it is woken, less one whose notification is still to come. */
  ghost function Unseen(s: State): seq<Byte>
    requires s.InRange() && s.Covered() < BUFSIZE
  {
    var bytes := Between(s.buf, s.Covered(), s.tail);
    if s.sender.Published? && bytes != [] then bytes[..|bytes| - 1] else bytes
  }

  /** A newline the receiver has not seen, or a full ring, has a notification outstanding. */
  ghost predicate Alert(s: State)
    requires Conserved(s)
  {
    && (NEWLINE in Unseen(s) ==> s.notified)
    && (IsFull(s.head, s.tail) && s.receiver.Idle? && !s.sender.Published? ==> s.notified)
    && (s.sender.Published? && Used(s.Covered(), s.tail) > 0 ==> LastByte(s) == s.sender.c)
  }

  ghost function LastByte(s: State): Byte
    requires s.InRange() && s.Covered() < BUFSIZE && Used(s.Covered(), s.tail) > 0
  {
    Between(s.buf, s.Covered(), s.tail)[Used(s.Covered(), s.tail) - 1]
  }

  ghost predicate Inv(s: State) {
    Conserved(s) && Alert(s)
  }

  lemma StoreAlert(s: State, c: Byte)
    requires Inv(s) && Enabled(s, Store(c))
    ensures Inv(Stepped(s, Store(c)))
  {
    StoreKeeps(s, c);
    CoveredFull(s);
    BetweenAppend(s.buf, s.Covered(), s.tail, c);
  }

  lemma PublishAlert(s: State)
    requires Inv(s) && Enabled(s, Publish)
    ensures Inv(Stepped(s, Publish))
  {
    PublishKeeps(s);
    CoveredFull(s);
    BetweenAppend(s.buf, s.Covered(), s.tail, s.sender.c);
    assert s.buf[s.tail := s.sender.c] == s.buf;
    assert Stepped(s, Publish).Covered() == s.Covered() || Stepped(s, Publish).Covered() == Next(s.tail);
  }

  lemma NotifyAlert(s: State)
    requires Inv(s) && Enabled(s, Notify)
    ensures Inv(Stepped(s, Notify))
  {
    StepConserves(s, Notify);
    var t := Stepped(s, Notify);
    var bytes := Between(s.buf, s.Covered(), s.tail);
    assert Unseen(t) == bytes;
    if bytes != [] {
      InLast(bytes, s.sender.c);
    }
  }

  lemma InLast(bytes: seq<Byte>, c: Byte)
    requires bytes != [] && bytes[|bytes| - 1] == c
    ensures NEWLINE in bytes ==> NEWLINE in bytes[..|bytes| - 1] || c == NEWLINE
  {
    assert bytes == bytes[..|bytes| - 1] + [c];
  }

  lemma CoveredFull(s: State)
    requires InOrder(s) && !IsFull(s.head, s.tail)
    ensures !IsFull(s.Covered(), s.tail)
  {
    if s.receiver.Delivering? {
      BetweenSplit(s.buf, s.head, s.receiver.limit, s.tail);
    }
  }

  lemma ReceiverAlert(s: State, step: Step)
    requires Inv(s) && Enabled(s, step) && !step.Store? && !step.Publish? && !step.Notify?
    ensures Inv(Stepped(s, step))
  {
    StepConserves(s, step);
    if step.Advance? {
      AdvanceKeeps(s);
    }
  }

  /**
   For every interleaving in which the sender does not write into a full ring: the bytes delivered followed by the
   bytes in the ring are the bytes published, the indices stay in range, and no wake-up is lost - a published newline
   that the receiver has not taken notice of, or a full ring, has a notification outstanding or about to be sent.
   */
  lemma ConsoleSafe(s: State, steps: seq<Step>)
    requires Inv(s) && Lawful(Stepped, Enabled, s, steps)
    ensures var r := Fold(Stepped, s, steps);
            && Inv(r)
            && r.published == r.delivered + Between(r.buf, r.Reached(), r.tail)
            && (r.sender.Ready? && r.receiver.Idle? && !r.notified ==>
                  NEWLINE !in Between(r.buf, r.head, r.tail) && !IsFull(r.head, r.tail))
  {
    forall t, step | Inv(t) && Enabled(t, step)
      ensures Inv(Stepped(t, step))
    {
      match step {
        case Store(c) => StoreAlert(t, c);
        case Publish => PublishAlert(t);
        case Notify => NotifyAlert(t);
        case _ => ReceiverAlert(t, step);
      }
    }
    LawfulKeeps(Stepped, Inv, Enabled, s, steps);
  }

  /** Connections start with an empty ring and everything idle. */
  lemma ConsoleStarts(buf: seq<Byte>)
    requires |buf| == BUFSIZE
    ensures Inv(State(buf, 0, 0, false, Ready, Idle, [], []))
  {
  }

  // ---- Either side on its own --------------------------------------------------------------------------

  /** A write from start to end: the byte is published last, and the other side is notified of a newline or a full ring. */
  lemma SenderSends(s: State, c: Byte)
    requires Conserved(s) && s.Reached() < BUFSIZE && s.sender.Ready? && !IsFull(s.head, s.tail)
    ensures var r := Stepped(Stepped(Stepped(s, Store(c)), Publish), Notify);
            && r.sender.Ready? && r.published == s.published + [c]
            && r.head == s.head && r.tail == Next(s.tail) && r.receiver == s.receiver && r.delivered == s.delivered
            && (r.notified <==> s.notified || c == 10 || IsFull(s.head, Next(s.tail)))
  {
    StoreKeeps(s, c);
    PublishKeeps(Stepped(s, Store(c)));
  }

  /** The receiver's next step. */
  function ReceiverNext(s: State): Step {
    match s.receiver
    case Idle => Wake
    case Woken => Check
    case Nonempty => Snapshot
    case Delivering(position, limit) => if position != limit then Deliver else Advance
  }

  ghost function Handled(s: State): State {
    Stepped(s, ReceiverNext(s))
  }

  /** What a handler that is left alone ends with: everything published is delivered and the ring is empty. */
  ghost predicate AllDelivered(s: State, r: State) {
    && Conserved(r) && r.receiver.Idle? && r.head == r.tail == s.tail
    && r.published == s.published && r.delivered == s.published && r.sender == s.sender
  }

  lemma {:induction false} DeliversRest(s: State)
    requires Conserved(s) && s.receiver.Delivering? && s.receiver.limit == s.tail
    ensures AllDelivered(s, Repeat(Handled, s, Used(s.receiver.position, s.tail) + 1))
    decreases Used(s.receiver.position, s.tail)
  {
    var p := s.receiver.position;
    if p == s.tail {
      LastStep(s);
      assert Repeat(Handled, s, 0) == s;
    } else {
      DeliverStep(s);
      DeliversRest(Handled(s));
      RepeatShift(Handled, s, Used(p, s.tail));
    }
  }

  lemma LastStep(s: State)
    requires Conserved(s) && s.receiver.Delivering? && s.receiver.limit == s.receiver.position == s.tail
    ensures AllDelivered(s, Handled(s))
  {
    AdvanceKeeps(s);
  }

  lemma DeliverStep(s: State)
    requires Conserved(s) && s.receiver.Delivering? && s.receiver.limit == s.tail != s.receiver.position
    ensures var r := Handled(s);
            && Conserved(r) && r.receiver == Delivering(Next(s.receiver.position), s.tail)
            && r.tail == s.tail && r.published == s.published && r.sender == s.sender
    ensures Used(Next(s.receiver.position), s.tail) == Used(s.receiver.position, s.tail) - 1
  {
    DeliverKeeps(s);
    BetweenTake(s.buf, s.receiver.position, s.tail);
  }

  /** A notification handler that is left alone delivers everything published and goes back to sleep. */
  lemma HandlerDelivers(s: State)
    requires Conserved(s) && s.receiver.Woken?
    ensures AllDelivered(s, Repeat(Handled, s, if s.head == s.tail then 1 else Used(s.head, s.tail) + 3))
  {
    if s.head != s.tail {
      Opened(s);
      DeliversRest(Handled(Handled(s)));
      RepeatShift(Handled, Handled(s), Used(s.head, s.tail) + 1);
      RepeatShift(Handled, s, Used(s.head, s.tail) + 2);
    } else {
      assert Repeat(Handled, s, 0) == s;
    }
  }

  lemma Opened(s: State)
    requires Conserved(s) && s.receiver.Woken? && s.head != s.tail
    ensures var r := Handled(Handled(s));
            && Conserved(r) && r.receiver == Delivering(s.head, s.tail)
            && r.tail == s.tail && r.published == s.published && r.sender == s.sender
  {
  }
}
