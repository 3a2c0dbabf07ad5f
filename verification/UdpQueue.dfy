/**
 What one arrival and one poll do to a client's packet queue and its signal flag, and the protocol between the UDP
 server and a program with two such queues that sleeps on one notification.
 */
module UdpQueue {
  import opened Chains

  /** A received packet: its payload in a chain of buffers, and where it came from. */
  datatype Packet = Packet(id: nat, chain: seq<seq<nat>>, addr: nat, port: nat)

  /** A client's end of the connector: the packets not yet polled, and whether the next one must signal. */
  datatype Endpoint = Endpoint(queue: seq<Packet>, needSignal: bool)

  datatype Outcome = Dropped | Queued | QueuedAndSignalled

  function Received(e: Endpoint, p: Packet, capacity: nat): (Endpoint, Outcome) {
    if |e.queue| >= capacity then (e, Dropped)
    else (Endpoint(e.queue + [p], false), if e.needSignal then QueuedAndSignalled else Queued)
  }

  /** The status of a poll: nothing there, the last packet, or a packet with more behind it. */
  datatype Status = Empty | Last | More

  function Polled(e: Endpoint): (Endpoint, Status) {
    if e.queue == [] then (e.(needSignal := true), Empty)
    else
      var rest := e.queue[1..];
      (Endpoint(rest, e.needSignal || rest == []), if rest == [] then Last else More)
  }

  // ---- The program that sleeps on both queues ----------------------------------------------------------

  /** Waiting for the notification, or draining the first queue (with the second to come or not), or the second. */
  datatype Program = Waiting | DrainFirst(secondToo: bool) | DrainSecond

  /** Both endpoints, the two badge bits of the notification, the program, and what went in and came out. */
  datatype System = System(ends: seq<Endpoint>, pending: seq<bool>, program: Program, capacity: nat,
                           accepted: seq<seq<Packet>>, delivered: seq<seq<Packet>>)
  {
    predicate WellFormed() {
      |ends| == |pending| == |accepted| == |delivered| == 2 && capacity > 0
    }
  }

  datatype Step = Arrive(which: nat, p: Packet) | Wake | Poll

  predicate Enabled(s: System, step: Step) {
    s.WellFormed() &&
    match step
    case Arrive(which, _) => which < 2
    case Wake => s.program.Waiting? && (s.pending[0] || s.pending[1])
    case Poll => !s.program.Waiting?
  }

  /** The queue the program is draining. */
  function Draining(program: Program): nat {
    if program.DrainFirst? then 0 else 1
  }

  /** Where the program goes when its current queue is done. */
  function Done(program: Program): Program {
    if program == DrainFirst(true) then DrainSecond else Waiting
  }

  function Stepped(s: System, step: Step): System {
    if !Enabled(s, step) then s
    else match step
      case Arrive(which, p) =>
        var (e, outcome) := Received(s.ends[which], p, s.capacity);
        s.(ends := s.ends[which := e],
           pending := if outcome.QueuedAndSignalled? then s.pending[which := true] else s.pending,
           accepted := if outcome.Dropped? then s.accepted else s.accepted[which := s.accepted[which] + [p]])
      case Wake =>
        s.(pending := [false, false],
           program := if s.pending[0] then DrainFirst(s.pending[1]) else DrainSecond)
      case Poll =>
        var i := Draining(s.program);
        var (e, status) := Polled(s.ends[i]);
        s.(ends := s.ends[i := e],
           program := if status.More? then s.program else Done(s.program),
           delivered := if status.Empty? then s.delivered
                        else s.delivered[i := s.delivered[i] + [s.ends[i].queue[0]]])
  }

  /** The program will still poll queue i before it sleeps again. */
  predicate WillDrain(program: Program, i: nat) {
    match program
    case Waiting => false
    case DrainFirst(secondToo) => i == 0 || secondToo
    case DrainSecond => i == 1
  }

  predicate EndpointInv(s: System, i: nat)
    requires s.WellFormed() && i < 2
  {
    && (s.ends[i].needSignal <==> s.ends[i].queue == [])
    && (s.ends[i].queue != [] ==> s.pending[i] || WillDrain(s.program, i))
    && s.accepted[i] == s.delivered[i] + s.ends[i].queue
  }

  predicate Inv(s: System) {
    s.WellFormed() && EndpointInv(s, 0) && EndpointInv(s, 1)
  }

  lemma ArriveKeeps(s: System, which: nat, p: Packet)
    requires Inv(s) && which < 2
    ensures Inv(Stepped(s, Arrive(which, p)))
  {
    var q := s.ends[which].queue;
    assert s.delivered[which] + q + [p] == s.delivered[which] + (q + [p]);
  }

  lemma PollKeeps(s: System)
    requires Inv(s) && !s.program.Waiting?
    ensures Inv(Stepped(s, Poll))
  {
    var i := Draining(s.program);
    var q := s.ends[i].queue;
    if q != [] {
      assert s.delivered[i] + q == s.delivered[i] + [q[0]] + q[1..];
    }
  }

  /**
   Over every interleaving of arrivals, polls and waits: a queue needs a signal exactly when it is empty; a non-empty
   queue has its badge bit pending or a program that will still poll it, so a sleeping program with no bit pending
   has left nothing behind; and every accepted packet has been delivered or is queued, in order.
   */
  lemma NothingStranded(s: System, steps: seq<Step>)
    requires Inv(s) && Lawful(Stepped, Enabled, s, steps)
    ensures var r := Fold(Stepped, s, steps);
            && Inv(r)
            && (r.program.Waiting? && r.pending == [false, false] ==>
                  r.ends[0].queue == [] && r.ends[1].queue == [] && r.accepted == r.delivered)
  {
    forall t, step | Inv(t) && Enabled(t, step)
      ensures Inv(Stepped(t, step))
    {
      match step {
        case Arrive(which, p) => ArriveKeeps(t, which, p);
        case Poll => PollKeeps(t);
        case Wake =>
      }
    }
    LawfulKeeps(Stepped, Inv, Enabled, s, steps);
    var r := Fold(Stepped, s, steps);
    if r.program.Waiting? && r.pending == [false, false] {
      assert r.accepted[0] == r.delivered[0] && r.accepted[1] == r.delivered[1];
    }
  }

  /** An arrival raises a badge bit exactly when it makes an empty queue non-empty. */
  lemma OneSignalPerRise(s: System, which: nat, p: Packet)
    requires Inv(s) && which < 2
    ensures Received(s.ends[which], p, s.capacity).1 == QueuedAndSignalled
            <==> s.ends[which].queue == [] && Stepped(s, Arrive(which, p)).ends[which].queue != []
    ensures var after := Stepped(s, Arrive(which, p));
            && (after.pending[which] <==> s.pending[which] || (s.ends[which].queue == [] && after.ends[which].queue != []))
            && after.pending[1 - which] == s.pending[1 - which]
  {
  }

  /** The program wakes up for a badge bit, drains exactly the queues whose bits were set, and takes the bits. */
  lemma WakesForBits(s: System)
    requires Inv(s) && s.program.Waiting?
    ensures Enabled(s, Wake) <==> s.pending[0] || s.pending[1]
    ensures Enabled(s, Wake) ==>
              var after := Stepped(s, Wake);
              && (WillDrain(after.program, 0) <==> s.pending[0]) && (WillDrain(after.program, 1) <==> s.pending[1])
              && after.pending == [false, false] && after.ends == s.ends
  {
  }

  /** An arrival is dropped exactly when all slots hold packets; otherwise it is the last packet of its queue. */
  lemma DroppedWhenFull(s: System, which: nat, p: Packet)
    requires Inv(s) && which < 2 && |s.ends[which].queue| <= s.capacity
    ensures var q, after := s.ends[which].queue, Stepped(s, Arrive(which, p)).ends[which].queue;
            && after == (if |q| == s.capacity then q else q + [p])
            && |after| <= s.capacity
            && (Received(s.ends[which], p, s.capacity).1.Dropped? <==> |q| == s.capacity)
  {
  }

  function PollOnce(s: System): System {
    Stepped(s, Poll)
  }

  /** Left alone, the drain loop delivers the whole queue in order, in as many polls, and goes on to the next one. */
  lemma {:induction false} DrainDelivers(s: System)
    requires Inv(s) && !s.program.Waiting? && s.ends[Draining(s.program)].queue != []
    ensures var i := Draining(s.program);
            var r := Repeat(PollOnce, s, |s.ends[i].queue|);
            && r.delivered == s.delivered[i := s.delivered[i] + s.ends[i].queue]
            && r.ends == s.ends[i := Endpoint([], true)]
            && r.program == Done(s.program) && r.pending == s.pending
    decreases |s.ends[Draining(s.program)].queue|
  {
    var i := Draining(s.program);
    var q := s.ends[i].queue;
    var t := PollOnce(s);
    PollKeeps(s);
    RepeatShift(PollOnce, s, |q| - 1);
    if |q| > 1 {
      DrainDelivers(t);
      assert s.delivered[i] + q == s.delivered[i] + [q[0]] + q[1..];
    } else {
      assert q == [q[0]];
      assert Repeat(PollOnce, t, 0) == t;
    }
  }
}
