/** The 16-byte ring FIFOs of the 16550A emulation. */
module SerialFifo {
  import opened Basics
  import opened SerialQueue

  /** A ring from slot `tail` on. */
  ghost function Rotated(data: seq<Byte>, tail: nat): (s: seq<Byte>)
    requires |data| == FIFO_LENGTH && tail < FIFO_LENGTH
    ensures |s| == FIFO_LENGTH
  {
    data[tail..] + data[..tail]
  }

  /** How far the write position is ahead of the end of the contents. */
  function Skew(tail: nat, count: nat, head: nat): int {
    var end := Wrap(tail + count);
    if head >= end then head - end else head + FIFO_LENGTH - end
  }

  ghost function LayoutOf(data: seq<Byte>, tail: nat, count: nat, head: nat): Queue
    requires |data| == FIFO_LENGTH && tail < FIFO_LENGTH && count <= FIFO_LENGTH && head < FIFO_LENGTH
  {
    Layout(Rotated(data, tail), count, Skew(tail, count, head))
  }

  lemma SlotIsHead(data: seq<Byte>, tail: nat, count: nat, head: nat)
    requires |data| == FIFO_LENGTH && tail < FIFO_LENGTH && count <= FIFO_LENGTH && head < FIFO_LENGTH
    ensures Wrap(tail + Slot(LayoutOf(data, tail, count, head))) == head
  {
  }

  lemma RotatedStore(data: seq<Byte>, tail: nat, slot: nat, c: Byte)
    requires |data| == FIFO_LENGTH && tail < FIFO_LENGTH && slot < FIFO_LENGTH
    ensures Rotated(data[Wrap(tail + slot) := c], tail) == Rotated(data, tail)[slot := c]
  {
  }

  lemma RotatedNext(data: seq<Byte>, tail: nat)
    requires |data| == FIFO_LENGTH && tail < FIFO_LENGTH
    ensures Rotated(data, Wrap(tail + 1)) == Rotated(data, tail)[1..] + [data[tail]]
    ensures Rotated(data, tail)[0] == data[tail]
  {
  }

  /** Storing at the head, and taking at the tail, are what the layout makes of them. */
  lemma StoreAtHead(data: seq<Byte>, tail: nat, count: nat, head: nat, c: Byte)
    requires |data| == FIFO_LENGTH && tail < FIFO_LENGTH && count <= FIFO_LENGTH && head < FIFO_LENGTH
    ensures LayoutOf(data[head := c], tail, if count < FIFO_LENGTH then count + 1 else count, Wrap(head + 1))
         == WithByte(LayoutOf(data, tail, count, head), c)
  {
    SlotIsHead(data, tail, count, head);
    RotatedStore(data, tail, Slot(LayoutOf(data, tail, count, head)), c);
    assert Skew(tail, count + 1, Wrap(head + 1)) == Skew(tail, count, head);
    assert Skew(tail, count, Wrap(head + 1)) == Wrap(Skew(tail, count, head) + 1);
  }

  lemma TakeAtTail(data: seq<Byte>, tail: nat, count: nat, head: nat)
    requires |data| == FIFO_LENGTH && tail < FIFO_LENGTH && 0 < count <= FIFO_LENGTH && head < FIFO_LENGTH
    ensures var q, after := LayoutOf(data, tail, count, head), LayoutOf(data, Wrap(tail + 1), count - 1, head);
            after == Taken(q) && Oldest(q) == data[tail]
  {
    RotatedNext(data, tail);
    assert Skew(Wrap(tail + 1), count - 1, head) == Skew(tail, count, head);
  }

  class Fifo {
    const data: array<Byte>
    var count: nat
    var itl: nat
    var tail: nat
    var head: nat

    ghost predicate Valid()
      reads this
    {
      data.Length == FIFO_LENGTH && count <= FIFO_LENGTH && tail < FIFO_LENGTH && head < FIFO_LENGTH
    }

    /** The ring from its oldest slot, with how far the write position is ahead of the end of the contents. */
    ghost function Queue(): Queue
      reads this, data
      requires Valid()
    {
      LayoutOf(data[..], tail, count, head)
    }

    ghost function Contents(): seq<Byte>
      reads this, data
      requires Valid()
    {
      Bytes(Queue())
    }

    /** New bytes go where the contents end; an overwrite of a full FIFO breaks this. */
    ghost predicate Aligned()
      reads this
    {
      head == Wrap(tail + count)
    }

    constructor ()
      ensures Valid() && Aligned() && Queue() == EMPTY && itl == 0 && fresh(data)
    {
      data := new Byte[FIFO_LENGTH](_ => 0);
      count, itl, tail, head := 0, 0, 0, 0;
    }

    method SetTriggerLevel(level: nat)
      requires Valid()
      modifies this`itl
      ensures Valid() && itl == level && Queue() == old(Queue()) && Aligned() == old(Aligned())
    {
      itl := level;
    }

    method Clear()
      requires Valid()
      modifies this`count, this`tail, this`head, data
      ensures Valid() && Aligned() && Queue() == EMPTY
    {
      for i := 0 to FIFO_LENGTH
        invariant forall j :: 0 <= j < i ==> data[j] == 0
      {
        data[i] := 0;
      }
      count, head, tail := 0, 0, 0;
    }

    /**
     Store a byte.  A full receive FIFO drops it and reports the overrun; a full transmit FIFO stores it all the same,
     and from then on the write position is out of step with the contents.
     */
    method Put(transmit: bool, chr: Byte) returns (overrun: bool)
      requires Valid()
      modifies this`count, this`head, data
      ensures Valid()
      ensures overrun == (!transmit && old(count) == FIFO_LENGTH)
      ensures Queue() == if overrun then old(Queue()) else WithByte(old(Queue()), chr)
      ensures !transmit || old(count) < FIFO_LENGTH ==> Aligned() == old(Aligned())
      ensures old(Aligned()) && old(count) < FIFO_LENGTH ==> Contents() == old(Contents()) + [chr]
    {
      if transmit || count < FIFO_LENGTH {
        StoreAtHead(data[..], tail, count, head, chr);
        AppendsIff(Queue(), chr);
        data[head] := chr;
        head := head + 1;
        if head == FIFO_LENGTH {
          head := 0;
        }
      }
      if count < FIFO_LENGTH {
        count := count + 1;
        overrun := false;
      } else {
        overrun := !transmit;
      }
    }

    /** Take the oldest byte; an empty FIFO yields 0. */
    method Get() returns (c: Byte)
      requires Valid()
      modifies this`count, this`tail
      ensures Valid() && Aligned() == old(Aligned())
      ensures c == Oldest(old(Queue())) && Queue() == Taken(old(Queue()))
    {
      if count == 0 {
        return 0;
      }
      TakeAtTail(data[..], tail, count, head);
      c := data[tail];
      tail := tail + 1;
      if tail == FIFO_LENGTH {
        tail := 0;
      }
      count := count - 1;
    }
  }
}
