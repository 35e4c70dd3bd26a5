/**
 The UART receive ring: one producer (the interrupt handler), one consumer (the code in uart_getc), 32-bit
 counters that run freely and wrap, and the event register of SEV, SEVL and WFE. Every atomic load or store
 is a step of its own, and the two sides' steps interleave in any order.
 */
module UartRing {
  import opened Bits

  const CAPACITY: nat := 256

  type Byte = x: nat | x < 256

  /** Where the interrupt handler is, with the locals it holds there. */
  datatype Producer =
    | Idle
    | TestFifo
    | CountByte(value: Byte)
    | LoadHead(value: Byte)
    | LoadTail(value: Byte, head: nat)
    | CountOverflow(value: Byte)
    | StoreByte(value: Byte, head: nat, used: nat)
    | StoreHead(value: Byte, head: nat, used: nat)
    | LoadMark(used: nat)
    | StoreMark(used: nat)
    | SendEvent

  /** Where the consuming code is. Waiting with the event register clear is being asleep. */
  datatype Consumer =
    | Elsewhere
    | SetLocalEvent
    | PopTail
    | PopHead(tail: nat)
    | ReadByte(tail: nat)
    | StoreTail(tail: nat, value: Byte)
    | WaitForEvent
    | CountTail(head: nat)

  /** What became of a byte that the handler took from the hardware. */
  datatype Fate = Fate(value: Byte, kept: bool)

  /** The last fields are history: the bytes published by the producer and taken by the consumer; every byte
      that arrived; the fate of each byte the handler has dealt with; and how many were accepted before the
      handler was entered. */
  datatype Uart = Uart(
    buffer: seq<Byte>,
    head: nat,
    tail: nat,
    event: bool,
    fifo: seq<Byte>,
    received: bool,
    producer: Producer,
    consumer: Consumer,
    rxBytes: nat,
    overflows: nat,
    highWatermark: nat,
    accepted: seq<Byte>,
    popped: seq<Byte>,
    arrived: seq<Byte>,
    fates: seq<Fate>,
    acceptedBefore: nat)

  datatype Step =
    | Arrive(value: Byte)
    | Interrupt
    | Produce
    | TimerEvent
    | CallGetc
    | CallSleep
    | CallCount
    | Consume
    | ReturnFromWait(eventKept: bool)

  function Slot(counter: nat): nat {
    And(counter, CAPACITY - 1)
  }

  /** The ring's contents, oldest first, as the counters and the buffer define them. */
  function Queue(buffer: seq<Byte>, head: nat, tail: nat): seq<Byte>
    requires |buffer| == CAPACITY
  {
    seq(Wrap32(head - tail), i requires 0 <= i => buffer[Slot(Wrap32(tail + i))])
  }

  // ---- Steps ----

  predicate Enabled(s: Uart, step: Step) {
    match step
    case Arrive(_) => true
    case Interrupt => s.producer == Idle
    case Produce => s.producer != Idle
    case TimerEvent => true
    case CallGetc => s.consumer == Elsewhere
    case CallSleep => s.consumer == Elsewhere
    case CallCount => s.consumer == Elsewhere
    case Consume => s.consumer != Elsewhere && s.consumer != WaitForEvent
    case ReturnFromWait(_) => s.consumer == WaitForEvent
  }

  function Apply(s: Uart, step: Step): Uart
    requires |s.buffer| == CAPACITY && Enabled(s, step)
  {
    match step
    case Arrive(value) => s.(fifo := s.fifo + [value], arrived := s.arrived + [value])
    case Interrupt => s.(producer := TestFifo, received := false, acceptedBefore := |s.accepted|)
    case Produce => ProducerStep(s)
    case TimerEvent => s.(event := true)
    case CallGetc => s.(consumer := SetLocalEvent)
    // timer_sleep_ticks waits too, and takes events that were meant for nobody in particular.
    case CallSleep => s.(event := false)
    case CallCount => s.(consumer := CountTail(s.head))
    case Consume => ConsumerStep(s)
    // WFE returns when the event register is set, and may return at any other time.
    case ReturnFromWait(kept) => s.(consumer := PopTail, event := s.event && kept)
  }

  function ProducerStep(s: Uart): Uart
    requires |s.buffer| == CAPACITY && s.producer != Idle
  {
    match s.producer
    case TestFifo =>
      if s.fifo == [] then s.(producer := SendEvent)
      else s.(producer := CountByte(s.fifo[0]), fifo := s.fifo[1..])
    case CountByte(value) => s.(producer := LoadHead(value), rxBytes := s.rxBytes + 1)
    case LoadHead(value) => s.(producer := LoadTail(value, s.head))
    case LoadTail(value, head) =>
      var used := Wrap32(head - s.tail);
      s.(producer := if used >= CAPACITY then CountOverflow(value) else StoreByte(value, head, used))
    case CountOverflow(value) =>
      s.(producer := TestFifo, overflows := s.overflows + 1, fates := s.fates + [Fate(value, false)])
    case StoreByte(value, head, used) =>
      s.(producer := StoreHead(value, head, used), buffer := s.buffer[Slot(head) := value])
    case StoreHead(value, head, used) =>
      s.(producer := LoadMark(used), head := Wrap32(head + 1), received := true,
         accepted := s.accepted + [value], fates := s.fates + [Fate(value, true)])
    case LoadMark(used) => s.(producer := if used + 1 > s.highWatermark then StoreMark(used) else TestFifo)
    case StoreMark(used) => s.(producer := TestFifo, highWatermark := used + 1)
    case SendEvent => s.(producer := Idle, event := s.event || s.received)
  }

  function ConsumerStep(s: Uart): Uart
    requires |s.buffer| == CAPACITY && s.consumer != Elsewhere && s.consumer != WaitForEvent
  {
    match s.consumer
    case SetLocalEvent => s.(consumer := PopTail, event := true)
    case PopTail => s.(consumer := PopHead(s.tail))
    case PopHead(tail) => s.(consumer := if tail == s.head then WaitForEvent else ReadByte(tail))
    case ReadByte(tail) => s.(consumer := StoreTail(tail, s.buffer[Slot(tail)]))
    case StoreTail(tail, value) =>
      s.(consumer := Elsewhere, tail := Wrap32(tail + 1), popped := s.popped + [value])
    case CountTail(_) => s.(consumer := Elsewhere)
  }

  // ---- Counters that wrap ----

  lemma SlotIsRemainder(counter: nat)
    ensures Slot(counter) == counter % CAPACITY
    ensures Slot(Wrap32(counter)) == counter % CAPACITY
  {
    hide And;
    assert Pow2(8) == CAPACITY;
    AndLowMask(counter, 8);
    AndLowMask(Wrap32(counter), 8);
    var q := counter / TWO_32;
    assert Wrap32(counter) == (counter / CAPACITY - q * 0x100_0000) * CAPACITY + counter % CAPACITY;
    DivModUnique(Wrap32(counter), CAPACITY, counter / CAPACITY - q * 0x100_0000, counter % CAPACITY);
  }

  lemma SlotAfter(n: nat, i: nat)
    ensures Slot(Wrap32(Wrap32(n) + i)) == (n + i) % CAPACITY
  {
    SlotIsRemainder(n + i);
    assert Wrap32(Wrap32(n) + i) == Wrap32(n + i);
  }

  lemma DifferenceSurvivesWrap(n: nat, m: nat)
    requires n <= m < n + TWO_32
    ensures Wrap32(Wrap32(m) - Wrap32(n)) == m - n
  {
  }

  lemma SuccessorWraps(n: nat)
    ensures Wrap32(Wrap32(n) + 1) == Wrap32(n + 1)
  {
  }

  // ---- The invariant ----

  ghost predicate RingInv(s: Uart) {
    var n, m := |s.popped|, |s.accepted|;
    && |s.buffer| == CAPACITY
    && n <= m <= n + CAPACITY
    && s.head == Wrap32(m) && s.tail == Wrap32(n)
    && s.popped == s.accepted[..n]
    && (forall k :: n <= k < m ==> s.buffer[k % CAPACITY] == s.accepted[k])
  }

  ghost predicate ProducerInv(s: Uart) {
    var occupied := |s.accepted| - |s.popped|;
    match s.producer
    case LoadTail(_, head) => head == s.head
    case StoreByte(_, head, used) => head == s.head && occupied <= used < CAPACITY
    case StoreHead(value, head, used) =>
      && head == s.head && occupied <= used < CAPACITY
      && |s.buffer| == CAPACITY && s.buffer[|s.accepted| % CAPACITY] == value
    case LoadMark(used) => used < CAPACITY && s.received
    case StoreMark(used) => used < CAPACITY && s.received
    case _ => true
  }

  ghost predicate ConsumerInv(s: Uart) {
    var n, m := |s.popped|, |s.accepted|;
    match s.consumer
    case PopHead(tail) => tail == s.tail
    case ReadByte(tail) => tail == s.tail && n < m
    case StoreTail(tail, value) => tail == s.tail && n < m && value == s.accepted[n]
    case WaitForEvent => n == m || s.event || (s.producer != Idle && s.received)
    case CountTail(head) => exists k :: n <= k <= m && head == Wrap32(k)
    case _ => true
  }

  /** The high-water mark, counting the one the handler is about to store. */
  function Mark(s: Uart): nat {
    if s.producer.LoadMark? || s.producer.StoreMark? then
      if s.producer.used + 1 > s.highWatermark then s.producer.used + 1 else s.highWatermark
    else s.highWatermark
  }

  ghost predicate CountInv(s: Uart) {
    && s.highWatermark <= CAPACITY
    && (s.producer.StoreMark? ==> s.producer.used + 1 > s.highWatermark)
    && |s.accepted| - |s.popped| <= Mark(s)
    && s.rxBytes == |s.fates| +
         (if s.producer.LoadHead? || s.producer.LoadTail? || s.producer.CountOverflow? ||
             s.producer.StoreByte? || s.producer.StoreHead? then 1 else 0)
  }

  // ---- What became of the bytes that arrived ----

  function Values(fates: seq<Fate>): seq<Byte> {
    if fates == [] then [] else Values(fates[..|fates| - 1]) + [fates[|fates| - 1].value]
  }

  function Kept(fates: seq<Fate>): seq<Byte> {
    if fates == [] then []
    else
      var last := fates[|fates| - 1];
      Kept(fates[..|fates| - 1]) + (if last.kept then [last.value] else [])
  }

  function Lost(fates: seq<Fate>): nat {
    if fates == [] then 0 else Lost(fates[..|fates| - 1]) + if fates[|fates| - 1].kept then 0 else 1
  }

  lemma FateAppend(fates: seq<Fate>, fate: Fate)
    ensures Values(fates + [fate]) == Values(fates) + [fate.value]
    ensures Kept(fates + [fate]) == Kept(fates) + if fate.kept then [fate.value] else []
    ensures Lost(fates + [fate]) == Lost(fates) + if fate.kept then 0 else 1
  {
    assert (fates + [fate])[..|fates|] == fates;
  }

  lemma {:induction false} FatesAddUp(fates: seq<Fate>)
    ensures |Kept(fates)| + Lost(fates) == |fates| == |Values(fates)|
    ensures Lost(fates) == 0 ==> Kept(fates) == Values(fates)
  {
    if fates != [] {
      FatesAddUp(fates[..|fates| - 1]);
    }
  }

  /** The byte that the handler has taken from the hardware and not yet dealt with. */
  function InHand(producer: Producer): seq<Byte> {
    match producer
    case CountByte(value) => [value]
    case LoadHead(value) => [value]
    case LoadTail(value, _) => [value]
    case CountOverflow(value) => [value]
    case StoreByte(value, _, _) => [value]
    case StoreHead(value, _, _) => [value]
    case _ => []
  }

  /** Every byte that arrived was dealt with, in the order of arrival, or is in the handler's hand, or is still
      in the hardware; the ring got those that were kept; and the handler remembers whether it kept any. */
  ghost predicate FateInv(s: Uart) {
    && s.arrived == Values(s.fates) + InHand(s.producer) + s.fifo
    && s.accepted == Kept(s.fates)
    && s.overflows == Lost(s.fates)
    && s.acceptedBefore <= |s.accepted|
    && (s.producer != Idle ==> (s.received <==> s.acceptedBefore < |s.accepted|))
  }

  ghost predicate Inv(s: Uart) {
    RingInv(s) && ProducerInv(s) && ConsumerInv(s) && CountInv(s) && FateInv(s)
  }

  lemma ProducerKeepsFates(s: Uart)
    requires Inv(s) && s.producer != Idle
    ensures FateInv(ProducerStep(s))
  {
    hide Slot, Wrap32, Values, Kept, Lost, RingInv, ConsumerInv;
    assert |s.buffer| == CAPACITY by { BufferSize(s); }
    if s.producer.CountOverflow? {
      FateAppend(s.fates, Fate(s.producer.value, false));
    } else if s.producer.StoreHead? {
      FateAppend(s.fates, Fate(s.producer.value, true));
    }
  }

  lemma BufferSize(s: Uart)
    requires RingInv(s)
    ensures |s.buffer| == CAPACITY
  {
  }

  lemma StoreMissesQueue(s: Uart, k: nat)
    requires RingInv(s) && |s.popped| <= k < |s.accepted| && |s.accepted| - |s.popped| < CAPACITY
    ensures k % CAPACITY != |s.accepted| % CAPACITY
  {
  }

  /** The store to the buffer goes to the one slot after the queue. */
  lemma StoreByteKeepsInv(s: Uart)
    requires Inv(s) && s.producer.StoreByte?
    ensures Inv(ProducerStep(s))
  {
    hide Slot, Wrap32, FateInv;
    ProducerKeepsFates(s);
    SlotIsRemainder(|s.accepted|);
    forall k | |s.popped| <= k < |s.accepted|
      ensures k % CAPACITY != |s.accepted| % CAPACITY
    {
      StoreMissesQueue(s, k);
    }
  }

  /** Publishing the new head puts the byte just stored at the end of the queue. */
  lemma StoreHeadKeepsInv(s: Uart)
    requires Inv(s) && s.producer.StoreHead?
    ensures Inv(ProducerStep(s))
  {
    hide Slot, Wrap32, FateInv;
    ProducerKeepsFates(s);
    SuccessorWraps(|s.accepted|);
  }

  lemma ProducerKeepsInv(s: Uart)
    requires Inv(s) && s.producer != Idle
    ensures Inv(ProducerStep(s))
  {
    hide Slot, Wrap32, FateInv;
    ProducerKeepsFates(s);
    DifferenceSurvivesWrap(|s.popped|, |s.accepted|);
    if s.producer.StoreByte? {
      StoreByteKeepsInv(s);
    } else if s.producer.StoreHead? {
      StoreHeadKeepsInv(s);
    }
  }

  lemma ConsumerKeepsInv(s: Uart)
    requires Inv(s) && s.consumer != Elsewhere && s.consumer != WaitForEvent
    ensures Inv(ConsumerStep(s))
  {
    hide Slot, Values, Kept, Lost;
    SlotIsRemainder(|s.popped|);
    SuccessorWraps(|s.popped|);
    DifferenceSurvivesWrap(|s.popped|, |s.accepted|);
  }

  lemma StepKeepsInv(s: Uart, step: Step)
    requires Inv(s) && Enabled(s, step)
    ensures Inv(Apply(s, step))
  {
    match step
    case Produce => ProducerKeepsInv(s);
    case Consume => ConsumerKeepsInv(s);
    case _ =>
  }

  // ---- Refinement of a bounded FIFO ----

  /** The counters and the buffer spell out exactly the bytes accepted and not yet popped. */
  lemma QueueIsPending(s: Uart)
    requires RingInv(s)
    ensures Queue(s.buffer, s.head, s.tail) == s.accepted[|s.popped|..]
    ensures |Queue(s.buffer, s.head, s.tail)| <= CAPACITY
  {
    hide And, Slot, Wrap32;
    var n, m := |s.popped|, |s.accepted|;
    DifferenceSurvivesWrap(n, m);
    var queue := Queue(s.buffer, s.head, s.tail);
    forall i | 0 <= i < m - n
      ensures queue[i] == s.accepted[n + i]
    {
      SlotAfter(n, i);
      assert n <= n + i < m;
    }
  }

  /** What a step may do to the abstract queue. */
  datatype Effect = Unchanged | Pushed(value: Byte) | Popped(value: Byte)

  function EffectOf(s: Uart, step: Step): Effect {
    if step == Produce && s.producer.StoreHead? then Pushed(s.producer.value)
    else if step == Consume && s.consumer.StoreTail? then Popped(s.consumer.value)
    else Unchanged
  }

  /** Under any interleaving the ring is a FIFO limited to 256: publishing the new head appends the byte,
      and finds room; publishing the new tail removes the oldest byte, which is the one handed out; and no
      other step - in particular no store to the buffer - changes what is queued. */
  lemma StepRefinesFifo(s: Uart, step: Step)
    requires Inv(s) && Enabled(s, step)
    ensures var before := Queue(s.buffer, s.head, s.tail);
      var after := Apply(s, step);
      var queue := Queue(after.buffer, after.head, after.tail);
      match EffectOf(s, step)
      case Pushed(value) => |before| < CAPACITY && queue == before + [value]
      case Popped(value) => before != [] && value == before[0] && queue == before[1..]
      case Unchanged => queue == before
  {
    hide And, Slot, Queue, ConsumerStep, ProducerStep, Apply;
    StepKeepsInv(s, step);
    QueueIsPending(s);
    QueueIsPending(Apply(s, step));
    StepHistory(s, step);
  }

  lemma StepHistory(s: Uart, step: Step)
    requires Inv(s) && Enabled(s, step)
    ensures Apply(s, step).accepted == s.accepted + (if EffectOf(s, step).Pushed? then [EffectOf(s, step).value] else [])
    ensures Apply(s, step).popped == s.popped + (if EffectOf(s, step).Popped? then [EffectOf(s, step).value] else [])
    ensures EffectOf(s, step).Pushed? ==> |s.accepted| - |s.popped| < CAPACITY
    ensures EffectOf(s, step).Popped? ==>
      |s.popped| < |s.accepted| && EffectOf(s, step).value == s.accepted[|s.popped|]
  {
    hide And, Slot, Wrap32, Values, Kept, Lost, ProducerStep, ConsumerStep, Inv;
    match step
    case Produce => ProducerHistory(s);
    case Consume => ConsumerHistory(s);
    case _ =>
  }

  lemma ProducerHistory(s: Uart)
    requires Inv(s) && s.producer != Idle
    ensures ProducerStep(s).popped == s.popped
    ensures if s.producer.StoreHead? then
              ProducerStep(s).accepted == s.accepted + [s.producer.value] && |s.accepted| - |s.popped| < CAPACITY
            else ProducerStep(s).accepted == s.accepted
  {
    hide And, Slot, Wrap32, FateInv, CountInv, ConsumerInv;
  }

  lemma ConsumerHistory(s: Uart)
    requires Inv(s) && s.consumer != Elsewhere && s.consumer != WaitForEvent
    ensures ConsumerStep(s).accepted == s.accepted
    ensures if s.consumer.StoreTail? then
              && |s.popped| < |s.accepted| && s.consumer.value == s.accepted[|s.popped|]
              && ConsumerStep(s).popped == s.popped + [s.consumer.value]
            else ConsumerStep(s).popped == s.popped
  {
    hide And, Slot, Wrap32, FateInv, CountInv, ProducerInv;
  }

  /** A byte is dropped only if the ring held 256 bytes when the handler looked. */
  lemma DropsOnlyWhenFull(s: Uart)
    requires Inv(s) && s.producer.LoadTail?
    ensures ProducerStep(s).producer.CountOverflow? <==> |Queue(s.buffer, s.head, s.tail)| == 256
  {
    QueueIsPending(s);
  }

  /** The consumer finds the ring empty only if it was when it looked. */
  lemma WaitsOnlyWhenEmpty(s: Uart)
    requires Inv(s) && s.consumer.PopHead?
    ensures ConsumerStep(s).consumer.WaitForEvent? <==> Queue(s.buffer, s.head, s.tail) == []
  {
    QueueIsPending(s);
    DifferenceSurvivesWrap(|s.popped|, |s.accepted|);
  }

  /** uart_rx_buffered_count, with its two loads apart, is never more than is queued at the second one. */
  lemma BufferedCountIsBounded(s: Uart)
    requires Inv(s) && s.consumer.CountTail?
    ensures Wrap32(s.consumer.head - s.tail) <= |Queue(s.buffer, s.head, s.tail)| <= CAPACITY
  {
    QueueIsPending(s);
    var k :| |s.popped| <= k <= |s.accepted| && s.consumer.head == Wrap32(k);
    DifferenceSurvivesWrap(|s.popped|, k);
  }

  /** The high-water mark never falls, and stays within the buffer. */
  lemma MarkOnlyRises(s: Uart, step: Step)
    requires Inv(s) && Enabled(s, step)
    ensures s.highWatermark <= Apply(s, step).highWatermark <= CAPACITY
  {
    hide Slot, Wrap32;
  }

  /** uart_getc comes back only with a byte: a consumer inside it gets out of it by taking the oldest byte. */
  lemma GetcReturnsWithByte(s: Uart, step: Step)
    requires Inv(s) && Enabled(s, step) && s.consumer != Elsewhere && !s.consumer.CountTail?
    requires Apply(s, step).consumer == Elsewhere
    ensures Queue(s.buffer, s.head, s.tail) != []
    ensures EffectOf(s, step) == Popped(Queue(s.buffer, s.head, s.tail)[0])
  {
    hide Slot, Queue, And;
    StepRefinesFifo(s, step);
  }

  /** Events: a wait takes one, here or in timer_sleep_ticks; the timer, the handler after a byte it kept, and
      uart_getc on its way in each leave one. */
  lemma EventsComeAndGo(s: Uart, step: Step)
    requires Inv(s) && Enabled(s, step)
    ensures var after := Apply(s, step);
      && (s.event ==> (after.event <==> step != CallSleep && step != ReturnFromWait(false)))
      && (!s.event ==>
            (after.event <==>
               step == TimerEvent || (step == Consume && s.consumer == SetLocalEvent) ||
               (step == Produce && s.producer == SendEvent && s.acceptedBefore < |s.accepted|)))
  {
    hide Slot, Wrap32, Values, Kept, Lost;
  }

  /** The head that uart_rx_buffered_count loads first makes the count exact there and then. */
  lemma CountStartsExact(s: Uart)
    requires Inv(s) && s.consumer == Elsewhere
    ensures var after := Apply(s, CallCount);
      after.consumer.CountTail? && Wrap32(after.consumer.head - after.tail) == |Queue(s.buffer, s.head, s.tail)|
  {
  }

  // ---- Runs ----

  /** Zeroed static variables, and an event register and hardware FIFO that are empty. */
  function Boot(): Uart {
    Uart(seq(CAPACITY, _ => 0), 0, 0, false, [], false, Idle, Elsewhere, 0, 0, 0, [], [], [], [], 0)
  }

  ghost predicate AllEnabled(s: Uart, steps: seq<Step>)
    requires Inv(s)
    decreases |steps|
  {
    steps != [] ==>
      Enabled(s, steps[0]) && (StepKeepsInv(s, steps[0]); AllEnabled(Apply(s, steps[0]), steps[1..]))
  }

  ghost function Run(s: Uart, steps: seq<Step>): (last: Uart)
    requires Inv(s) && AllEnabled(s, steps)
    ensures Inv(last)
    decreases |steps|
  {
    if steps == [] then s
    else
      StepKeepsInv(s, steps[0]);
      Run(Apply(s, steps[0]), steps[1..])
  }

  lemma BootIsSafe()
    ensures Inv(Boot())
  {
  }

  ghost predicate Possible(steps: seq<Step>) {
    BootIsSafe();
    AllEnabled(Boot(), steps)
  }

  ghost function After(steps: seq<Step>): Uart
    requires Possible(steps)
  {
    BootIsSafe();
    Run(Boot(), steps)
  }

  /** The bytes that the steps of a run put into the hardware. */
  function Arrivals(steps: seq<Step>): seq<Byte> {
    if steps == [] then [] else Arrived(steps[0]) + Arrivals(steps[1..])
  }

  function Arrived(step: Step): seq<Byte> {
    if step.Arrive? then [step.value] else []
  }

  lemma {:induction false} RunArrivals(s: Uart, steps: seq<Step>)
    requires Inv(s) && AllEnabled(s, steps)
    ensures Run(s, steps).arrived == s.arrived + Arrivals(steps)
    decreases |steps|
  {
    hide Inv, Apply, Slot, And, Wrap32, Enabled, Arrived;
    if steps != [] {
      InvBuffer(s);
      StepKeepsInv(s, steps[0]);
      StepArrival(s, steps[0]);
      RunArrivals(Apply(s, steps[0]), steps[1..]);
      assert Arrivals(steps) == Arrived(steps[0]) + Arrivals(steps[1..]);
      assert Run(s, steps) == Run(Apply(s, steps[0]), steps[1..]);
    }
  }

  lemma InvBuffer(s: Uart)
    requires Inv(s)
    ensures |s.buffer| == CAPACITY
  {
  }

  lemma StepArrival(s: Uart, step: Step)
    requires Inv(s) && Enabled(s, step)
    ensures Apply(s, step).arrived == s.arrived + Arrived(step)
  {
    hide Slot, And, Wrap32;
  }

  /** Nothing is invented, reordered or lost without being counted: the bytes that arrived are, in their order,
      those the handler has dealt with, the one in its hand, and those still in the hardware; those it kept
      are what the ring accepted, and of these a prefix has been handed out. Without overflows and between
      handler runs, what was handed out is thus a prefix of what arrived. */
  lemma BytesComeThrough(steps: seq<Step>)
    requires Possible(steps)
    ensures Through(After(steps), Arrivals(steps))
  {
    hide Inv, Through, Slot, And, Wrap32, Apply, Enabled;
    BootIsSafe();
    RunArrivals(Boot(), steps);
    StateIsThrough(After(steps));
    assert [] + Arrivals(steps) == Arrivals(steps);
  }

  ghost predicate Through(s: Uart, arrivals: seq<Byte>) {
    && arrivals == Values(s.fates) + InHand(s.producer) + s.fifo
    && s.popped <= s.accepted == Kept(s.fates)
    && s.overflows == Lost(s.fates)
    && (s.overflows == 0 ==> s.popped <= s.accepted <= arrivals)
    && (s.overflows == 0 && s.producer == Idle ==> s.accepted + s.fifo == arrivals)
  }

  lemma StateIsThrough(s: Uart)
    requires Inv(s)
    ensures Through(s, s.arrived)
  {
    hide Slot, And, Wrap32, Values, Kept, Lost, ProducerInv, ConsumerInv, CountInv;
    FatesAddUp(s.fates);
  }

  ghost predicate Asleep(s: Uart) {
    s.consumer == WaitForEvent && !s.event
  }

  /** From boot, whatever the interleaving: what was popped is a prefix of what was accepted; the distance
      of the counters stays within the buffer across any number of wraps; the high-water mark covers what is
      queued, but for the moment between publishing a byte and storing the mark; every byte read was accepted or
      counted as dropped once the handler is done with it; and nobody sleeps over a byte: while uart_getc
      is asleep and no handler is running, the ring is empty. */
  lemma RingIsSafe(steps: seq<Step>)
    requires Possible(steps)
    ensures var s := After(steps);
      && s.popped <= s.accepted
      && Wrap32(s.head - s.tail) <= CAPACITY && s.highWatermark <= CAPACITY
      && (!s.producer.LoadMark? && !s.producer.StoreMark? ==>
            |Queue(s.buffer, s.head, s.tail)| <= s.highWatermark)
      && (s.producer == Idle ==> s.rxBytes == |s.accepted| + s.overflows == |s.arrived| - |s.fifo|)
      && (Asleep(s) && s.producer == Idle ==> Queue(s.buffer, s.head, s.tail) == [])
      && (Asleep(s) && Queue(s.buffer, s.head, s.tail) != [] ==> s.producer != Idle && s.received)
  {
    QueueIsPending(After(steps));
    FatesAddUp(After(steps).fates);
  }

  // ---- What the high-water mark measures ----

  function Fill(s: Uart): nat
    requires |s.buffer| == CAPACITY
  {
    |Queue(s.buffer, s.head, s.tail)|
  }

  function Max(a: nat, b: nat): nat {
    if a >= b then a else b
  }

  /** The most that was ever queued in the course of a run. */
  ghost function Peak(s: Uart, steps: seq<Step>): (peak: nat)
    requires Inv(s) && AllEnabled(s, steps)
    ensures peak >= Fill(s)
    decreases |steps|
  {
    if steps == [] then Fill(s)
    else
      StepKeepsInv(s, steps[0]);
      Max(Fill(s), Peak(Apply(s, steps[0]), steps[1..]))
  }

  /** The mark, and the fill the handler saw when it read the tail, in terms of a fill that occurred. */
  ghost predicate MarkWithin(s: Uart, peak: nat) {
    && |s.buffer| == CAPACITY && Fill(s) <= peak && s.highWatermark <= peak + 1
    && (s.producer.StoreByte? || s.producer.StoreHead? || s.producer.LoadMark? || s.producer.StoreMark? ==>
          s.producer.used <= peak)
  }

  lemma StepKeepsMark(s: Uart, step: Step, peak: nat)
    requires Inv(s) && Enabled(s, step) && MarkWithin(s, peak)
    ensures Inv(Apply(s, step)) && Mark(s) <= Mark(Apply(s, step))
    ensures MarkWithin(Apply(s, step), Max(peak, Fill(Apply(s, step))))
  {
    hide Slot, And, FateInv, Queue, ConsumerInv;
    StepKeepsInv(s, step);
    QueueIsPending(s);
    QueueSize(s);
  }

  lemma QueueSize(s: Uart)
    requires |s.buffer| == CAPACITY
    ensures Fill(s) == Wrap32(s.head - s.tail)
  {
  }

  lemma {:induction false} RunKeepsMark(s: Uart, steps: seq<Step>, peak: nat)
    requires Inv(s) && AllEnabled(s, steps) && MarkWithin(s, peak)
    ensures MarkWithin(Run(s, steps), Max(peak, Peak(s, steps)))
    ensures Mark(s) <= Mark(Run(s, steps)) && Peak(s, steps) <= Mark(Run(s, steps))
    decreases |steps|
  {
    hide Apply, Slot, And, Wrap32, Queue, FateInv, Mark, ProducerInv, ConsumerInv;
    FillWithinMark(s);
    if steps != [] {
      StepKeepsMark(s, steps[0], peak);
      var next := Apply(s, steps[0]);
      RunKeepsMark(next, steps[1..], Max(peak, Fill(next)));
    }
  }

  lemma FillWithinMark(s: Uart)
    requires Inv(s)
    ensures Fill(s) <= Mark(s)
  {
    QueueIsPending(s);
  }

  /** Outside the handler's two last steps for a byte, the high-water mark is at least the most that was ever
      queued; and it is at most one more than that. */
  lemma MarkMeasuresPeak(steps: seq<Step>)
    requires Possible(steps)
    ensures Inv(Boot())
    ensures var s, peak := After(steps), Peak(Boot(), steps);
      && s.highWatermark <= peak + 1
      && (!s.producer.LoadMark? && !s.producer.StoreMark? ==> peak <= s.highWatermark)
  {
    hide Apply, Slot, And, Queue;
    BootIsSafe();
    QueueSize(Boot());
    RunKeepsMark(Boot(), steps, 0);
  }

  /** The mark is taken from the fill that the handler saw when it read the tail. It is the fill at the moment
      the byte is published if and only if nothing was popped in between. */
  lemma MarkIsExactUnlessPopped(s: Uart)
    requires Inv(s) && s.producer.StoreHead?
    ensures var after := ProducerStep(s);
      && after.producer.LoadMark? && |after.buffer| == CAPACITY
      && (after.producer.used + 1 == Fill(after) <==> s.producer.used == Fill(s))
      && after.producer.used + 1 >= Fill(after)
  {
    hide Slot, And, FateInv, Queue;
    ProducerKeepsInv(s);
    QueueIsPending(s);
    QueueIsPending(ProducerStep(s));
  }

  // ---- A run in which the mark is one too high ----

  ghost function PeakOf(steps: seq<Step>): nat
    requires Possible(steps)
  {
    BootIsSafe();
    Peak(Boot(), steps)
  }

  lemma {:induction false} RunSnoc(s: Uart, steps: seq<Step>, step: Step)
    requires Inv(s) && AllEnabled(s, steps) && Enabled(Run(s, steps), step)
    ensures AllEnabled(s, steps + [step])
    ensures Run(s, steps + [step]) == Apply(Run(s, steps), step)
    ensures Inv(Apply(Run(s, steps), step))
    ensures Peak(s, steps + [step]) == Max(Peak(s, steps), Fill(Apply(Run(s, steps), step)))
    decreases |steps|
  {
    hide Apply, Fill, ProducerInv, ConsumerInv, CountInv, FateInv;
    StepKeepsInv(Run(s, steps), step);
    if steps == [] {
      assert steps + [step] == [step];
    } else {
      StepKeepsInv(s, steps[0]);
      assert (steps + [step])[1..] == steps[1..] + [step];
      RunSnoc(Apply(s, steps[0]), steps[1..], step);
    }
  }

  lemma Then(steps: seq<Step>, step: Step) returns (more: seq<Step>)
    requires Possible(steps) && Enabled(After(steps), step)
    ensures Possible(more) && |After(steps).buffer| == |After(more).buffer| == CAPACITY
    ensures After(more) == Apply(After(steps), step)
    ensures PeakOf(more) == Max(PeakOf(steps), Wrap32(After(more).head - After(more).tail))
  {
    hide Apply, Slot, And, Queue;
    BootIsSafe();
    RunSnoc(Boot(), steps, step);
    more := steps + [step];
    QueueSize(After(more));
  }

  lemma Start() returns (steps: seq<Step>)
    ensures Possible(steps) && After(steps) == Boot() && PeakOf(steps) == 0
  {
    hide Slot, And;
    BootIsSafe();
    QueueSize(Boot());
    steps := [];
  }

  /** Two bytes arrive, and the handler is about to look for room for the first. */
  lemma FirstByteTaken() returns (steps: seq<Step>)
    ensures Possible(steps) && PeakOf(steps) == 0
    ensures var s := After(steps);
      && s.producer == LoadHead(1) && s.consumer == Elsewhere && |s.fifo| == 1 && |s.buffer| == CAPACITY
      && s.head == s.tail == 0 && s.highWatermark == 0
  {
    hide Slot, And, Possible, After, PeakOf;
    steps := Start();
    steps := Then(steps, Arrive(1));
    steps := Then(steps, Arrive(2));
    steps := Then(steps, Interrupt);
    steps := Then(steps, Produce);
    steps := Then(steps, Produce);
  }

  /** ... has found room for it. */
  lemma FirstByteStored() returns (steps: seq<Step>)
    ensures Possible(steps) && PeakOf(steps) == 0
    ensures var s := After(steps);
      && s.producer.StoreHead? && s.producer.head == s.producer.used == 0
      && s.consumer == Elsewhere && |s.fifo| == 1 && |s.buffer| == CAPACITY
      && s.head == s.tail == 0 && s.highWatermark == 0
  {
    hide Slot, And, Possible, After, PeakOf;
    steps := FirstByteTaken();
    steps := Then(steps, Produce);
    steps := Then(steps, Produce);
    steps := Then(steps, Produce);
  }

  /** ... has queued it. */
  lemma FirstByteQueued() returns (steps: seq<Step>)
    ensures Possible(steps) && PeakOf(steps) == 1
    ensures var s := After(steps);
      && s.producer == TestFifo && s.consumer == Elsewhere && |s.fifo| == 1 && |s.buffer| == CAPACITY
      && s.head == 1 && s.tail == 0 && s.highWatermark == 1
  {
    hide Slot, And, Possible, After, PeakOf;
    steps := FirstByteStored();
    steps := Then(steps, Produce);
    steps := Then(steps, Produce);
    steps := Then(steps, Produce);
  }

  /** The handler has read the tail for the second byte. */
  lemma SecondByteTaken() returns (steps: seq<Step>)
    ensures Possible(steps) && PeakOf(steps) == 1
    ensures var s := After(steps);
      && s.producer.StoreByte? && s.producer.used == 1 && s.producer.head == 1
      && s.consumer == Elsewhere && |s.buffer| == CAPACITY
      && s.head == 1 && s.tail == 0 && s.highWatermark == 1
  {
    hide Slot, And, Possible, After, PeakOf;
    steps := FirstByteQueued();
    steps := Then(steps, Produce);
    steps := Then(steps, Produce);
    steps := Then(steps, Produce);
    steps := Then(steps, Produce);
  }

  /** Then the first is popped. */
  lemma FirstBytePopped() returns (steps: seq<Step>)
    ensures Possible(steps) && PeakOf(steps) == 1
    ensures var s := After(steps);
      && s.producer.StoreByte? && s.producer.used == 1 && s.producer.head == 1 && |s.buffer| == CAPACITY
      && s.head == 1 && s.tail == 1 && s.highWatermark == 1
  {
    hide Slot, And, Possible, After, PeakOf;
    steps := SecondByteTaken();
    steps := Then(steps, CallGetc);
    steps := Then(steps, Consume);
    steps := Then(steps, Consume);
    steps := Then(steps, Consume);
    steps := Then(steps, Consume);
    steps := Then(steps, Consume);
  }

  /** So the mark can be one more than was ever queued: here never more than one byte is, and it says two. */
  lemma MarkCanBeOneTooHigh() returns (steps: seq<Step>)
    ensures Possible(steps) && PeakOf(steps) == 1 && After(steps).highWatermark == 2
  {
    hide Slot, And, Possible, After, PeakOf;
    steps := FirstBytePopped();
    steps := Then(steps, Produce);
    steps := Then(steps, Produce);
    steps := Then(steps, Produce);
    steps := Then(steps, Produce);
  }

  // ---- The handler ends ----

  /** How many steps the handler still has before it returns, if nothing more arrives. */
  function StepsLeft(s: Uart): nat {
    var drain := 9 * |s.fifo|;
    match s.producer
    case Idle => 0
    case SendEvent => 1
    case TestFifo => drain + 2
    case StoreMark(_) => drain + 3
    case CountOverflow(_) => drain + 3
    case LoadMark(_) => drain + 4
    case StoreHead(_, _, _) => drain + 5
    case StoreByte(_, _, _) => drain + 6
    case LoadTail(_, _) => drain + 7
    case LoadHead(_) => drain + 8
    case CountByte(_) => drain + 9
  }

  /** Each of its steps brings the handler nearer to its end; it stops taking bytes only when the hardware FIFO
      is empty, and returns only after that. */
  lemma HandlerFinishes(s: Uart)
    requires |s.buffer| == CAPACITY && s.producer != Idle
    ensures StepsLeft(ProducerStep(s)) < StepsLeft(s)
    ensures ProducerStep(s).producer == Idle ==> s.producer == SendEvent
    ensures ProducerStep(s).producer == SendEvent ==> s.producer == TestFifo && s.fifo == []
  {
    hide Slot, And;
  }

  /** Its last step leaves the event register set if a consumer is waiting over a ring that is not empty: its
      wait ends there. */
  lemma HandlerWakesWaiter(s: Uart)
    requires Inv(s) && s.producer == SendEvent && s.consumer == WaitForEvent
    ensures Queue(s.buffer, s.head, s.tail) != [] ==> ProducerStep(s).event
  {
    QueueIsPending(s);
  }
}
