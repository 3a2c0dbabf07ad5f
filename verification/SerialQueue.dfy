/**
 A 16-byte ring seen from its oldest slot, with everything the ring remembers: the waiting bytes, the stale ones behind
 them, and how far the write position has run ahead of the end of the contents.
 */
module SerialQueue {
  import opened Basics

  const FIFO_LENGTH := 16

  datatype Layout = Layout(slots: seq<Byte>, count: nat, skew: nat)

  const EMPTY: Layout := Layout([0, 0, 0, 0, 0, 0, 0, 0, 0, 0, 0, 0, 0, 0, 0, 0], 0, 0)

  type Queue = q: Layout | |q.slots| == FIFO_LENGTH && q.count <= FIFO_LENGTH && q.skew < FIFO_LENGTH witness EMPTY

  /** The bytes waiting, oldest first. */
  function Bytes(q: Queue): seq<Byte> {
    q.slots[..q.count]
  }

  /** A position less than one turn past the end of the ring, brought back into it. */
  function Wrap(i: nat): nat {
    if i < FIFO_LENGTH then i else i - FIFO_LENGTH
  }

  /** Where the next byte is stored; the end of the contents exactly when there is no skew. */
  function Slot(q: Queue): nat {
    Wrap(q.count + q.skew)
  }

  /** The byte taken next; a NUL if there is none. */
  function Oldest(q: Queue): Byte {
    if q.count == 0 then 0 else q.slots[0]
  }

  /** The oldest byte is taken; an empty queue stays as it is. */
  function Taken(q: Queue): Queue {
    if q.count == 0 then q else Layout(q.slots[1..] + [q.slots[0]], q.count - 1, q.skew)
  }

  /** A byte is stored where the write position is.  Only a store into a full queue changes the skew. */
  function WithByte(q: Queue, c: Byte): Queue {
    var slots := q.slots[Slot(q) := c];
    if q.count < FIFO_LENGTH then Layout(slots, q.count + 1, q.skew)
    else Layout(slots, q.count, Wrap(q.skew + 1))
  }

  lemma TakenBytes(q: Queue)
    ensures if Bytes(q) == [] then Oldest(q) == 0 && Taken(q) == q else Bytes(q) == [Oldest(q)] + Bytes(Taken(q))
  {
  }

  /**
   The byte stored joins the end of the contents if the write position is there.  Otherwise the slot that becomes
   visible is a stale one, and the slot written may be one that waits: only if those happen to hold the byte already
   is the result the same.
   */
  predicate Appends(q: Queue, c: Byte) {
    && q.count < FIFO_LENGTH
    && (q.skew == 0 || (q.slots[q.count] == c && (Slot(q) < q.count ==> q.slots[Slot(q)] == c)))
  }

  lemma AppendsIff(q: Queue, c: Byte)
    ensures Bytes(WithByte(q, c)) == Bytes(q) + [c] <==> Appends(q, c)
  {
    var after, n, slot := Bytes(WithByte(q, c)), q.count, Slot(q);
    if n < FIFO_LENGTH {
      assert |after| == n + 1;
      assert after[n] == if slot == n then c else q.slots[n];
      assert slot == n <==> q.skew == 0;
      assert forall i :: 0 <= i < n ==> after[i] == if i == slot then c else Bytes(q)[i];
      if Appends(q, c) {
        assert after == Bytes(q) + [c];
      } else if q.slots[n] != c {
        assert after[n] != (Bytes(q) + [c])[n];
      } else {
        assert after[slot] != (Bytes(q) + [c])[slot];
      }
    } else {
      assert |after| == n;
    }
  }

  /** Every byte can be appended exactly when there is room and no skew. */
  lemma AppendsAllIff(q: Queue)
    ensures (forall c: Byte :: Appends(q, c)) <==> q.count < FIFO_LENGTH && q.skew == 0
  {
    if q.count < FIFO_LENGTH && q.skew != 0 {
      var other: Byte := if q.slots[q.count] == 0 then 1 else 0;
      assert !Appends(q, other);
    } else if q.count == FIFO_LENGTH {
      assert !Appends(q, 0);
    }
  }
}
