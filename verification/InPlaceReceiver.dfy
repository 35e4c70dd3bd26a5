/**
 The receive half of uart.c run without interruption, as it is on one CPU while the handler holds it: each
 operation against the bounded FIFO it implements.
 */
module InPlaceReceiver {
  import opened Bits
  import opened UartRing

  function Min(a: nat, b: nat): nat {
    if a <= b then a else b
  }

  lemma CountersAgree(head: nat, tail: nat)
    requires head < TWO_32 && tail < TWO_32
    ensures head == Wrap32(tail + Wrap32(head - tail))
  {
  }

  lemma HeadAdvances(head: nat, tail: nat)
    requires head < TWO_32 && tail < TWO_32 && Wrap32(head - tail) < CAPACITY
    ensures Wrap32(Wrap32(head + 1) - tail) == Wrap32(head - tail) + 1
  {
  }

  lemma SlotsDiffer(tail: nat, i: nat, used: nat)
    requires i < used < CAPACITY
    ensures Slot(Wrap32(tail + i)) < CAPACITY && Slot(Wrap32(tail + i)) != Slot(Wrap32(tail + used))
  {
    hide And, Slot;
    SlotIsRemainder(tail + i);
    SlotIsRemainder(tail + used);
  }

  lemma PushedQueue(buffer: seq<Byte>, head: nat, tail: nat, value: Byte)
    requires |buffer| == CAPACITY && head < TWO_32 && tail < TWO_32 && Wrap32(head - tail) < CAPACITY
    ensures Slot(head) < CAPACITY
    ensures Queue(buffer[Slot(head) := value], Wrap32(head + 1), tail) == Queue(buffer, head, tail) + [value]
  {
    hide And, Slot, Wrap32;
    var used := Wrap32(head - tail);
    CountersAgree(head, tail);
    HeadAdvances(head, tail);
    SlotIsRemainder(tail + used);
    var queue, after := Queue(buffer, head, tail), Queue(buffer[Slot(head) := value], Wrap32(head + 1), tail);
    forall i | 0 <= i < used
      ensures after[i] == queue[i]
    {
      SlotsDiffer(tail, i, used);
    }
  }

  lemma TailAdvances(head: nat, tail: nat)
    requires head < TWO_32 && tail < TWO_32 && head != tail
    ensures Wrap32(head - tail) > 0 && Wrap32(head - Wrap32(tail + 1)) == Wrap32(head - tail) - 1
  {
  }

  lemma WrapTwice(tail: nat, i: nat)
    ensures Wrap32(Wrap32(tail + 1) + i) == Wrap32(tail + (i + 1))
  {
  }

  lemma PoppedQueue(buffer: seq<Byte>, head: nat, tail: nat)
    requires |buffer| == CAPACITY && head < TWO_32 && tail < TWO_32 && head != tail
    ensures Slot(tail) < CAPACITY
    ensures Queue(buffer, head, tail) == [buffer[Slot(tail)]] + Queue(buffer, head, Wrap32(tail + 1))
  {
    hide And, Slot;
    SlotIsRemainder(tail);
    assert Wrap32(tail + 0) == tail;
    PoppedTail(buffer, head, tail);
  }

  lemma PoppedTail(buffer: seq<Byte>, head: nat, tail: nat)
    requires |buffer| == CAPACITY && head < TWO_32 && tail < TWO_32 && head != tail
    ensures Queue(buffer, head, tail) != []
    ensures Queue(buffer, head, tail)[1..] == Queue(buffer, head, Wrap32(tail + 1))
  {
    hide And, Slot, Wrap32;
    TailAdvances(head, tail);
    var queue, rest := Queue(buffer, head, tail), Queue(buffer, head, Wrap32(tail + 1));
    forall i | 0 <= i < |rest|
      ensures rest[i] == queue[1..][i]
    {
      WrapTwice(tail, i);
    }
  }

  class UartReceiver {
    const rxBuffer: array<Byte>
    var rxHead: nat
    var rxTail: nat
    var rxBytes: nat
    var rxOverflows: nat
    var rxHighWatermark: nat

    ghost function Contents(): seq<Byte>
      requires rxBuffer.Length == CAPACITY
      reads this, rxBuffer
    {
      Queue(rxBuffer[..], rxHead, rxTail)
    }

    ghost predicate Valid()
      reads this, rxBuffer
    {
      && rxBuffer.Length == CAPACITY && rxHead < TWO_32 && rxTail < TWO_32
      && |Contents()| <= CAPACITY && rxHighWatermark <= CAPACITY
    }

    constructor ()
      ensures Valid() && Contents() == [] && rxBytes == rxOverflows == rxHighWatermark == 0
    {
      rxBuffer := new Byte[CAPACITY](_ => 0);
      rxHead, rxTail, rxBytes, rxOverflows, rxHighWatermark := 0, 0, 0, 0, 0;
    }

    /** Appends the byte if there is room, and otherwise drops it and counts it. */
    method Push(value: Byte) returns (ok: bool)
      requires Valid()
      modifies this, rxBuffer
      ensures Valid() && rxTail == old(rxTail) && rxBytes == old(rxBytes)
      ensures ok <==> old(|Contents()|) < CAPACITY
      ensures Contents() == old(Contents()) + if ok then [value] else []
      ensures rxOverflows == old(rxOverflows) + if ok then 0 else 1
      ensures rxHighWatermark == if ok then Max(old(rxHighWatermark), |Contents()|) else old(rxHighWatermark)
    {
      hide And, Slot;
      var head: int := rxHead;
      var tail: int := rxTail;
      var used := Wrap32(head - tail);
      if used >= CAPACITY {
        rxOverflows := rxOverflows + 1;
        return false;
      }
      PushedQueue(rxBuffer[..], head, tail, value);
      ghost var before := rxBuffer[..];
      rxBuffer[Slot(head)] := value;
      assert rxBuffer[..] == before[Slot(head) := value];
      rxHead := Wrap32(head + 1);
      if used + 1 > rxHighWatermark {
        rxHighWatermark := used + 1;
      }
      return true;
    }

    /** Takes the oldest byte, if there is one. */
    method Pop() returns (ok: bool, value: Byte)
      requires Valid()
      modifies this
      ensures Valid() && rxHead == old(rxHead) && rxHighWatermark == old(rxHighWatermark)
      ensures rxBytes == old(rxBytes) && rxOverflows == old(rxOverflows)
      ensures ok <==> old(Contents()) != []
      ensures ok ==> old(Contents()) == [value] + Contents()
      ensures !ok ==> Contents() == old(Contents())
    {
      hide And, Slot;
      value := 0;
      var tail := rxTail;
      var head := rxHead;
      if tail == head {
        return false, value;
      }
      PoppedQueue(rxBuffer[..], head, tail);
      value := rxBuffer[Slot(tail)];
      rxTail := Wrap32(tail + 1);
      return true, value;
    }

    /** Empties the hardware FIFO: as many bytes as fit go to the ring in order, the rest are dropped and
        counted, and the caller learns whether there is anything to wake a reader for. */
    method DrainFifo(fifo: seq<Byte>) returns (received: bool)
      requires Valid()
      modifies this, rxBuffer
      ensures Valid()
      ensures var fit := Min(|fifo|, CAPACITY - old(|Contents()|));
        && Contents() == old(Contents()) + fifo[..fit]
        && rxOverflows == old(rxOverflows) + |fifo| - fit
        && rxBytes == old(rxBytes) + |fifo|
        && (received <==> fit > 0)
    {
      received := false;
      var taken := 0;
      ghost var start := Contents();
      while taken < |fifo|
        invariant 0 <= taken <= |fifo|
        invariant Valid()
        invariant var fit := Min(taken, CAPACITY - |start|);
          && Contents() == start + fifo[..fit]
          && rxOverflows == old(rxOverflows) + taken - fit
          && (received <==> fit > 0)
        invariant rxBytes == old(rxBytes) + taken
      {
        rxBytes := rxBytes + 1;
        var pushed := Push(fifo[taken]);
        if pushed {
          received := true;
        }
        taken := taken + 1;
      }
    }

    method BufferedCount() returns (count: nat)
      requires Valid()
      ensures count == |Contents()|
    {
      count := Wrap32(rxHead - rxTail);
    }
  }
}
