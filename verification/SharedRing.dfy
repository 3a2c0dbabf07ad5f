/** The one-page byte ring shared by two components: the writer moves `tail`, the reader moves `head`. */
module SharedRing {
  import opened Basics

  /** The page less the two indices. */
  const BUFSIZE: nat := 4088

  const NEWLINE: Byte := 10

  function Next(i: nat): nat {
    (i + 1) % BUFSIZE
  }

  /** The bytes in use between two indices. */
  function Used(head: nat, tail: nat): nat
    requires head < BUFSIZE
  {
    if tail >= head then tail - head else tail + BUFSIZE - head
  }

  predicate IsFull(head: nat, tail: nat) {
    Next(tail) == head
  }

  ghost function Between(buf: seq<Byte>, head: nat, tail: nat): (s: seq<Byte>)
    requires |buf| == BUFSIZE && head < BUFSIZE && tail < BUFSIZE
    ensures |s| == Used(head, tail)
  {
    seq(Used(head, tail), i requires 0 <= i < Used(head, tail) => buf[(head + i) % BUFSIZE])
  }

  lemma BetweenAppend(buf: seq<Byte>, head: nat, tail: nat, c: Byte)
    requires |buf| == BUFSIZE && head < BUFSIZE && tail < BUFSIZE && !IsFull(head, tail)
    ensures Between(buf[tail := c], head, tail) == Between(buf, head, tail)
    ensures Between(buf[tail := c], head, Next(tail)) == Between(buf, head, tail) + [c]
  {
    assert Used(head, Next(tail)) == Used(head, tail) + 1;
    assert (head + Used(head, tail)) % BUFSIZE == tail;
  }

  lemma BetweenTake(buf: seq<Byte>, head: nat, tail: nat)
    requires |buf| == BUFSIZE && head < BUFSIZE && tail < BUFSIZE && head != tail
    ensures Used(Next(head), tail) == Used(head, tail) - 1
    ensures Between(buf, head, tail) == [buf[head]] + Between(buf, Next(head), tail)
  {
  }

  lemma BetweenSplit(buf: seq<Byte>, head: nat, middle: nat, tail: nat)
    requires |buf| == BUFSIZE && head < BUFSIZE && middle < BUFSIZE && tail < BUFSIZE
    requires Used(head, middle) <= Used(head, tail)
    ensures Used(middle, tail) == Used(head, tail) - Used(head, middle)
    ensures Between(buf, head, tail) == Between(buf, head, middle) + Between(buf, middle, tail)
  {
  }

  /** A write into a full ring makes it look empty. */
  lemma FullWriteEmpties(head: nat, tail: nat)
    requires head < BUFSIZE && tail < BUFSIZE
    ensures Used(head, Next(tail)) == (if IsFull(head, tail) then 0 else Used(head, tail) + 1)
  {
  }

  class Ring {
    const buf: array<Byte>
    var head: nat
    var tail: nat

    ghost predicate Valid()
      reads this
    {
      buf.Length == BUFSIZE && head < BUFSIZE && tail < BUFSIZE
    }

    ghost function Contents(): seq<Byte>
      reads this, buf
      requires Valid()
    {
      Between(buf[..], head, tail)
    }

    predicate Full()
      reads this
    {
      IsFull(head, tail)
    }

    constructor ()
      ensures Valid() && Contents() == [] && fresh(buf)
    {
      buf := new Byte[BUFSIZE](_ => 0);
      head, tail := 0, 0;
    }

    /** The console's write: no byte is lost exactly when the ring was not full. */
    method Forward(c: Byte) returns (notify: bool)
      requires Valid()
      modifies this`tail, buf
      ensures Valid()
      ensures !old(Full()) ==> Contents() == old(Contents()) + [c]
      ensures old(Full()) ==> Contents() == []
      ensures notify == (c == NEWLINE || Full())
    {
      if !Full() {
        BetweenAppend(buf[..], head, tail, c);
      }
      FullWriteEmpties(head, tail);
      buf[tail] := c;
      tail := Next(tail);
      notify := c == NEWLINE || Full();
    }

    /** The console's read: everything up to the tail that was seen first is delivered, byte by byte. */
    method NotifyRecv() returns (delivered: seq<Byte>)
      requires Valid()
      modifies this`head
      ensures Valid() && delivered == old(Contents()) && Contents() == []
    {
      var lastReadTail := tail;
      var position: nat := head;
      delivered := [];
      while position != lastReadTail
        invariant position < BUFSIZE && head == old(head)
        invariant delivered + Between(buf[..], position, lastReadTail) == Contents()
        decreases Used(position, lastReadTail)
      {
        BetweenTake(buf[..], position, lastReadTail);
        delivered := delivered + [buf[position]];
        position := Next(position);
      }
      head := lastReadTail;
    }

    /** The serial port's read of one byte. */
    method Dequeue() returns (ok: bool, c: Byte)
      requires Valid()
      modifies this`head
      ensures Valid()
      ensures ok == (old(Contents()) != [])
      ensures ok ==> c == old(Contents())[0] && Contents() == old(Contents())[1..]
      ensures !ok ==> Contents() == []
    {
      ok, c := false, 0;
      if head != tail {
        BetweenTake(buf[..], head, tail);
        ok, c := true, buf[head];
        head := Next(head);
      }
    }
  }
}
