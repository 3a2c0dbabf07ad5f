/**
 The UDP receive connector: each client's message slots live in one array and are linked into a free list and a list
 of used slots, which is the queue of packets.
 */
module UdpReceive {
  import opened Basics
  import opened UdpQueue

  /** A null link. */
  const NIL := -1

  datatype Message = Message(packet: Packet, next: int)

  /** What the i-th slot of a list links to. */
  function After(list: seq<nat>, i: nat): int
    requires i < |list|
  {
    if i + 1 < |list| then list[i + 1] else NIL
  }

  /** The links from `head` run through exactly these slots, in order, and end. */
  predicate Linked(memory: seq<Message>, head: int, list: seq<nat>) {
    && (forall i :: 0 <= i < |list| ==> list[i] < |memory|)
    && head == (if list == [] then NIL else list[0])
    && forall i :: 0 <= i < |list| ==> memory[list[i]].next == After(list, i)
  }

  function Packets(memory: seq<Message>, list: seq<nat>): (q: seq<Packet>)
    requires forall i :: 0 <= i < |list| ==> list[i] < |memory|
    ensures |q| == |list|
  {
    seq(|list|, i requires 0 <= i < |list| => memory[list[i]].packet)
  }

  /** Distinct slots of a memory number at most its size. */
  lemma {:induction false} DistinctBounded(list: seq<nat>, n: nat)
    requires NoDuplicates(list) && forall i :: 0 <= i < |list| ==> list[i] < n
    ensures |list| <= n
  {
    if list != [] {
      assert list[0] < n;
      if n - 1 in list {
        var k :| 0 <= k < |list| && list[k] == n - 1;
        WithoutOne(list, k);
        DistinctBounded(list[..k] + list[k + 1..], n - 1);
      } else {
        DistinctBounded(list, n - 1);
      }
    }
  }

  lemma WithoutOne(list: seq<nat>, k: nat)
    requires NoDuplicates(list) && k < |list|
    ensures var rest := list[..k] + list[k + 1..];
            NoDuplicates(rest) && forall i :: 0 <= i < |rest| ==> rest[i] != list[k] && rest[i] in list
  {
  }

  /** Distinct slots as many as the memory has leave none out. */
  lemma AllSlots(list: seq<nat>, n: nat, slot: nat)
    requires NoDuplicates(list) && (forall i :: 0 <= i < |list| ==> list[i] < n) && |list| == n && slot < n
    ensures slot in list
  {
    if slot !in list {
      DistinctBounded(list + [slot], n);
    }
  }

  predicate Apart(a: seq<nat>, b: seq<nat>) {
    forall i, j :: 0 <= i < |a| && 0 <= j < |b| ==> a[i] != b[j]
  }

  /** The two lists are acyclic and disjoint, their sizes add up to the memory, and the tail is right. */
  predicate TwoLists(memory: seq<Message>, freeHead: int, usedHead: int, usedTail: int, free: seq<nat>, used: seq<nat>) {
    && Linked(memory, freeHead, free) && Linked(memory, usedHead, used)
    && NoDuplicates(free) && NoDuplicates(used) && Apart(free, used)
    && |free| + |used| == |memory|
    && (used != [] ==> usedTail == used[|used| - 1])
  }

  /** A list is not affected by writes to slots outside it. */
  lemma Unlinked(memory: seq<Message>, head: int, list: seq<nat>, slot: nat, m: Message)
    requires Linked(memory, head, list) && slot < |memory| && slot !in list
    ensures Linked(memory[slot := m], head, list)
    ensures Packets(memory[slot := m], list) == Packets(memory, list)
  {
  }

  lemma Tail(memory: seq<Message>, head: int, list: seq<nat>)
    requires Linked(memory, head, list) && list != []
    ensures Linked(memory, memory[list[0]].next, list[1..])
    ensures Packets(memory, list) == [memory[list[0]].packet] + Packets(memory, list[1..])
  {
    var rest := list[1..];
    forall i | 0 <= i < |rest|
      ensures memory[rest[i]].next == After(rest, i)
    {
      assert rest[i] == list[i + 1] && After(rest, i) == After(list, i + 1);
    }
    assert list == [list[0]] + rest && After(list, 0) == memory[list[0]].next;
  }

  lemma PushLinks(memory: seq<Message>, head: int, list: seq<nat>, m: nat)
    requires Linked(memory, head, list) && m < |memory| && m !in list
    ensures Linked(memory[m := memory[m].(next := head)], m, [m] + list)
  {
    var after, longer := memory[m := memory[m].(next := head)], [m] + list;
    forall i | 0 <= i < |longer|
      ensures after[longer[i]].next == After(longer, i)
    {
      if i > 0 {
        assert longer[i] == list[i - 1] && After(longer, i) == After(list, i - 1);
      }
    }
  }

  /** The memory after slot m is appended to the used list. */
  function Appended(memory: seq<Message>, m: nat, usedTail: int, used: seq<nat>, p: Packet): seq<Message>
    requires m < |memory| && (used != [] ==> 0 <= usedTail < |memory|)
  {
    var stored := memory[m := Message(p, NIL)];
    if used == [] then stored else stored[usedTail := stored[usedTail].(next := m)]
  }

  lemma AppendLinks(memory: seq<Message>, head: int, list: seq<nat>, m: nat, p: Packet)
    requires Linked(memory, head, list) && NoDuplicates(list) && m < |memory| && m !in list
    ensures var after := Appended(memory, m, if list == [] then NIL else list[|list| - 1], list, p);
            && Linked(after, if list == [] then m else head, list + [m])
            && Packets(after, list + [m]) == Packets(memory, list) + [p]
  {
    var after := Appended(memory, m, if list == [] then NIL else list[|list| - 1], list, p);
    var longer := list + [m];
    forall i | 0 <= i < |longer|
      ensures after[longer[i]].next == After(longer, i)
      ensures after[longer[i]].packet == if i < |list| then memory[list[i]].packet else p
    {
      if i < |list| {
        assert longer[i] == list[i] && (i + 1 < |list| ==> After(longer, i) == After(list, i));
      }
    }
  }

  /** Moving the first free slot to the end of the used list. */
  lemma EnqueueKeeps(memory: seq<Message>, freeHead: int, usedHead: int, usedTail: int, free: seq<nat>, used: seq<nat>,
                     p: Packet)
    requires TwoLists(memory, freeHead, usedHead, usedTail, free, used) && free != []
    ensures var m := free[0];
            var after := Appended(memory, m, usedTail, used, p);
            && TwoLists(after, memory[m].next, if used == [] then m else usedHead, m, free[1..], used + [m])
            && Packets(after, used + [m]) == Packets(memory, used) + [p]
  {
    var m, rest := free[0], free[1..];
    AppendLinks(memory, usedHead, used, m, p);
    Tail(memory, freeHead, free);
    var stored := memory[m := Message(p, NIL)];
    Unlinked(memory, memory[m].next, rest, m, Message(p, NIL));
    if used != [] {
      Unlinked(stored, memory[m].next, rest, usedTail, stored[usedTail].(next := m));
    }
  }

  /** Moving the first used slot to the head of the free list. */
  lemma DequeueKeeps(memory: seq<Message>, freeHead: int, usedHead: int, usedTail: int, free: seq<nat>, used: seq<nat>)
    requires TwoLists(memory, freeHead, usedHead, usedTail, free, used) && used != []
    ensures var m := used[0];
            var after := memory[m := memory[m].(next := freeHead)];
            && TwoLists(after, m, memory[m].next, usedTail, [m] + free, used[1..])
            && Packets(after, used[1..]) == Packets(memory, used)[1..]
            && Packets(memory, used)[0] == memory[m].packet
  {
    var m, rest := used[0], used[1..];
    Tail(memory, usedHead, used);
    Unlinked(memory, memory[m].next, rest, m, memory[m].(next := freeHead));
    PushLinks(memory, freeHead, free, m);
  }

  lemma Counted(queue: seq<Packet>, p: Packet)
    ensures multiset(queue + [p]) == multiset(queue) + multiset([p])
  {
  }

  class Client {
    const memory: array<Message>
    var freeHead: int
    var usedHead: int
    var usedTail: int
    var needSignal: bool
    /** The signals sent, and the packets handed back to the network stack, oldest first. */
    var signals: nat
    var freed: seq<Packet>

    ghost var free: seq<nat>
    ghost var used: seq<nat>
    ghost var arrived: seq<Packet>

    /**
     The two lists are acyclic and disjoint and together hold every slot; a signal is needed exactly when no packet is
     queued; and every packet that arrived has been freed once or is queued once.
     */
    ghost predicate Valid()
      reads this, memory
    {
      && memory.Length > 0
      && Lists()
      && (needSignal <==> used == [])
      && multiset(arrived) == multiset(freed) + multiset(Packets(memory[..], used))
    }

    ghost function End(): Endpoint
      reads this, memory
      requires Valid()
    {
      Endpoint(Packets(memory[..], used), needSignal)
    }

    /** All slots in the free list, the last one first. */
    constructor (bufs: nat)
      requires bufs > 0
      ensures Valid() && fresh(memory) && memory.Length == bufs
      ensures End() == Endpoint([], true) && freed == [] && signals == 0
    {
      var empty := Packet(0, [], 0, 0);
      memory := new Message[bufs](j => Message(empty, if j == 0 then NIL else j - 1));
      freeHead, usedHead, usedTail := bufs - 1, NIL, NIL;
      needSignal, signals, freed := true, 0, [];
      free, used, arrived := seq(bufs, i requires 0 <= i < bufs => bufs - 1 - i), [], [];
    }

    /** Every slot is in exactly one of the lists. */
    lemma EverySlotOnce(slot: nat)
      requires Valid() && slot < memory.Length
      ensures slot in free <==> slot !in used
    {
      AllSlots(free + used, memory.Length, slot);
    }

    /** The network stack hands over a packet. */
    method Receive(p: Packet)
      requires Valid()
      modifies this, memory
      ensures Valid() && arrived == old(arrived) + [p]
      ensures var (e, outcome) := Received(old(End()), p, memory.Length);
              && End() == e
              && freed == (if outcome.Dropped? then old(freed) + [p] else old(freed))
              && signals == old(signals) + if outcome.QueuedAndSignalled? then 1 else 0
      ensures old(|used|) == memory.Length <==> freed != old(freed)
    {
      if freeHead == NIL {
        arrived := arrived + [p];
        freed := freed + [p];
      } else {
        Accept(p);
      }
    }

    /** There is a free slot: the packet is queued, with a signal if the queue was empty. */
    method Accept(p: Packet)
      requires Valid() && free != []
      modifies this, memory
      ensures Valid() && arrived == old(arrived) + [p] && freed == old(freed)
      ensures End() == Endpoint(old(End()).queue + [p], false)
      ensures signals == old(signals) + if old(needSignal) then 1 else 0
    {
      ghost var queue := Packets(memory[..], used);
      arrived := arrived + [p];
      if needSignal {
        signals := signals + 1;
        needSignal := false;
      }
      Enqueue(p);
      Counted(queue, p);
    }

    ghost predicate Lists()
      reads this, memory
    {
      TwoLists(memory[..], freeHead, usedHead, usedTail, free, used)
    }

    /** The first free slot takes the packet and joins the end of the used list. */
    method Enqueue(p: Packet)
      requires Lists() && free != []
      modifies this`freeHead, this`usedHead, this`usedTail, this`free, this`used, memory
      ensures Lists() && used != []
      ensures Packets(memory[..], used) == old(Packets(memory[..], used)) + [p]
    {
      ghost var before := memory[..];
      EnqueueKeeps(before, freeHead, usedHead, usedTail, free, used, p);
      var m := freeHead;
      freeHead := memory[m].next;
      memory[m] := Message(p, NIL);
      if usedHead == NIL {
        usedHead, usedTail := m, m;
        assert memory[..] == Appended(before, m, old(usedTail), used, p);
      } else {
        memory[usedTail] := memory[usedTail].(next := m);
        assert memory[..] == Appended(before, m, usedTail, used, p);
        usedTail := m;
      }
      free, used := free[1..], used + [m];
    }

    /** The first used slot gives up its packet and becomes the first free one. */
    method Dequeue() returns (p: Packet)
      requires Lists() && used != []
      modifies this`freeHead, this`usedHead, this`free, this`used, memory
      ensures Lists()
      ensures old(Packets(memory[..], used)) == [p] + Packets(memory[..], used)
    {
      ghost var before := memory[..];
      DequeueKeeps(before, freeHead, usedHead, usedTail, free, used);
      var m := usedHead;
      usedHead := memory[m].next;
      p := memory[m].packet;
      memory[m] := memory[m].(next := freeHead);
      assert memory[..] == before[m := before[m].(next := freeHead)];
      freeHead := m;
      free, used := [m] + free, used[1..];
    }

    /** The oldest packet leaves the queue; a signal is needed again if it was the last. */
    method TakeOldest() returns (p: Packet)
      requires Lists() && used != [] && !needSignal
      modifies this`freeHead, this`usedHead, this`free, this`used, this`needSignal, memory
      ensures Lists() && (needSignal <==> used == []) && (usedHead == NIL <==> used == [])
      ensures old(Packets(memory[..], used)) == [p] + Packets(memory[..], used)
      ensures old(multiset(Packets(memory[..], used))) == multiset([p]) + multiset(Packets(memory[..], used))
    {
      p := Dequeue();
      if usedHead == NIL {
        needSignal := true;
      }
    }

    /** The client polls: the status, and the oldest packet's payload and origin. */
    method Poll() returns (status: Status, payload: seq<nat>, port: nat, addr: nat)
      requires Valid()
      modifies this, memory
      ensures Valid() && arrived == old(arrived) && signals == old(signals)
      ensures (End(), status) == Polled(old(End()))
      ensures status.Empty? ==> freed == old(freed)
      ensures !status.Empty? ==>
                var p := old(End()).queue[0];
                && freed == old(freed) + [p]
                && payload == Flatten(p.chain) && port == p.port && addr == p.addr
    {
      payload, port, addr := [], 0, 0;
      if usedHead == NIL {
        needSignal := true;
        return Empty, payload, port, addr;
      }
      var p;
      p, payload := PollOldest();
      status := if usedHead == NIL then Last else More;
      port, addr := p.port, p.addr;
    }

    /** The oldest packet leaves the queue, is copied out and is freed. */
    method PollOldest() returns (p: Packet, payload: seq<nat>)
      requires Valid() && used != []
      modifies this`freeHead, this`usedHead, this`free, this`used, this`needSignal, this`freed, memory
      ensures Valid() && freed == old(freed) + [p] && (usedHead == NIL <==> used == [])
      ensures old(End()).queue == [p] + End().queue && payload == Flatten(p.chain)
    {
      p := TakeOldest();
      payload := CopyOut(p.chain);
      Counted(freed, p);
      freed := freed + [p];
    }

    /** The chain's buffers one after the other. */
    method CopyOut(chain: seq<seq<nat>>) returns (payload: seq<nat>)
      ensures payload == Flatten(chain)
    {
      payload := [];
      for i := 0 to |chain|
        invariant payload == Flatten(chain[..i])
      {
        assert chain[..i + 1][..i] == chain[..i];
        payload := payload + chain[i];
      }
      assert chain[..|chain|] == chain;
    }
  }
}
