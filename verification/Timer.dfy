/**
 The tick counter of timer.c: deadlines on a fixed grid, however late or early the handler is called.
 */
module Timer {
  import opened Bits

  const TICKS_PER_SECOND: nat := 100

  datatype Clock = Clock(ticks: Word, deadline: Word, interval: Word)

  function Start(frequency: Word, now: Word): Clock {
    var interval := if frequency / TICKS_PER_SECOND == 0 then 1 else frequency / TICKS_PER_SECOND;
    Clock(0, Wrap64(now + interval), interval)
  }

  /** The handler, reading the counter as now. */
  function Handle(clock: Clock, now: Word): Clock
    requires clock.interval > 0
  {
    if now < clock.deadline then clock
    else
      var elapsed := Wrap64((now - clock.deadline) / clock.interval + 1);
      clock.(ticks := Wrap64(clock.ticks + elapsed), deadline := Wrap64(clock.deadline + elapsed * clock.interval))
  }

  // ---- No drift ----

  /** After a handler call that read `last`: the next deadline is exactly ticks + 1 intervals after the start,
      and the ticks are the whole intervals from the start to that reading. */
  ghost predicate OnGrid(clock: Clock, start: Word, last: Word) {
    && clock.interval > 0 && start <= last
    && clock.deadline == start + (clock.ticks + 1) * clock.interval
    && clock.ticks == (last - start) / clock.interval
  }

  /** The grid point after a reading. */
  function NextPoint(start: Word, interval: Word, now: Word): nat
    requires interval > 0 && start <= now
  {
    start + ((now - start) / interval + 1) * interval
  }

  lemma StartIsOnGrid(frequency: Word, now: Word)
    ensures var clock := Start(frequency, now);
      OnGrid(clock, now, now) <==> now + clock.interval < TWO_64
  {
  }

  /** The interval is the hundredth part of a second, rounded down, but never nothing; and the first deadline is
      one interval away, modulo the width of the counter. */
  lemma IntervalIsHundredth(frequency: Word, now: Word)
    ensures var clock := Start(frequency, now);
      && clock.ticks == 0
      && (frequency >= 100 ==> 100 * clock.interval <= frequency < 100 * (clock.interval + 1))
      && (frequency < 100 ==> clock.interval == 1)
      && (clock.deadline == now + clock.interval || clock.deadline == now + clock.interval - TWO_64)
  {
    QuotientBounds(frequency, 100);
  }

  /** Where a reading lies between grid points decides its quotient. */
  lemma GridQuotient(distance: nat, interval: nat, ticks: nat)
    requires interval > 0 && ticks * interval <= distance < (ticks + 1) * interval
    ensures distance / interval == ticks
  {
    DivModUnique(distance, interval, ticks, distance - ticks * interval);
  }

  lemma QuotientBounds(distance: nat, interval: nat)
    requires interval > 0
    ensures distance / interval * interval <= distance < (distance / interval + 1) * interval
  {
  }

  /** A late call catches up by whole intervals, to the first grid point after its reading. */
  lemma CatchUp(start: nat, interval: nat, ticks: nat, now: nat)
    requires interval > 0 && now >= start + (ticks + 1) * interval
    ensures var elapsed := (now - (start + (ticks + 1) * interval)) / interval + 1;
      && (now - start) / interval == ticks + elapsed
      && start + (ticks + 1) * interval + elapsed * interval == start + (ticks + elapsed + 1) * interval
  {
    var late := now - (start + (ticks + 1) * interval);
    var elapsed := late / interval + 1;
    QuotientBounds(late, interval);
    assert (ticks + 1) * interval + elapsed * interval == (ticks + elapsed + 1) * interval;
    assert (ticks + elapsed) * interval == (ticks + 1) * interval + (elapsed - 1) * interval;
    GridQuotient(now - start, interval, ticks + elapsed);
  }

  lemma ProductBounds(q: int, interval: nat, distance: nat)
    requires interval > 0 && q * interval <= distance
    ensures q <= distance
  {
    if q > 0 {
      assert q * (interval - 1) >= 0;
    }
  }

  lemma SmallQuotient(distance: nat, interval: nat)
    requires interval > 0
    ensures distance / interval <= distance
  {
    QuotientBounds(distance, interval);
    ProductBounds(distance / interval, interval, distance);
  }

  /** What a late call does, before the 64 bits of the deadline are considered. */
  lemma HandleLate(clock: Clock, start: Word, last: Word, now: Word)
    requires OnGrid(clock, start, last) && last <= now && clock.deadline <= now
    ensures Handle(clock, now) ==
      clock.(ticks := (now - start) / clock.interval, deadline := Wrap64(NextPoint(start, clock.interval, now)))
  {
    hide Wrap64;
    CatchUp(start, clock.interval, clock.ticks, now);
    SmallQuotient(now - start, clock.interval);
    HandleElapsed(clock, now, (now - clock.deadline) / clock.interval + 1, (now - start) / clock.interval);
  }

  lemma HandleElapsed(clock: Clock, now: Word, elapsed: nat, ticks: nat)
    requires clock.interval > 0 && clock.deadline <= now && elapsed == (now - clock.deadline) / clock.interval + 1
    requires ticks == clock.ticks + elapsed < TWO_64
    ensures Handle(clock, now) ==
      clock.(ticks := ticks, deadline := Wrap64(clock.deadline + elapsed * clock.interval))
  {
    NoWrap(elapsed);
    NoWrap(ticks);
  }

  lemma NoWrap(x: nat)
    requires x < TWO_64
    ensures Wrap64(x) == x
  {
  }

  /** A handler call, late or early, keeps the clock on its grid if and only if the next grid point still
      fits the 64-bit counter. */
  lemma HandleStaysOnGrid(clock: Clock, start: Word, last: Word, now: Word)
    requires OnGrid(clock, start, last) && last <= now
    ensures OnGrid(Handle(clock, now), start, now) <==> NextPoint(start, clock.interval, now) < TWO_64
  {
    QuotientBounds(last - start, clock.interval);
    if now < clock.deadline {
      GridQuotient(now - start, clock.interval, clock.ticks);
    } else {
      HandleLate(clock, start, last, now);
    }
  }

  lemma NextPointIsClose(start: Word, interval: Word, now: Word)
    requires interval > 0 && start <= now
    ensures now < NextPoint(start, interval, now) <= now + interval
  {
    QuotientBounds(now - start, interval);
    assert ((now - start) / interval + 1) * interval == (now - start) / interval * interval + interval;
  }

  function HandleAll(clock: Clock, readings: seq<Word>): (last: Clock)
    requires clock.interval > 0
    ensures last.interval == clock.interval
  {
    if readings == [] then clock
    else Handle(HandleAll(clock, readings[..|readings| - 1]), readings[|readings| - 1])
  }

  function LastReading(from: Word, readings: seq<Word>): Word {
    if readings == [] then from else readings[|readings| - 1]
  }

  /** Readings of one counter: they never go back. */
  predicate Forward(from: Word, readings: seq<Word>) {
    readings != [] ==>
      var before := readings[..|readings| - 1];
      Forward(from, before) && LastReading(from, before) <= readings[|readings| - 1]
  }

  /** Any sequence of handler calls, however irregular, leaves the clock on its grid, as long as the counter
      itself stays an interval away from wrapping: no drift. */
  lemma {:induction false} NoDrift(clock: Clock, start: Word, last: Word, readings: seq<Word>)
    requires OnGrid(clock, start, last) && Forward(last, readings)
    requires LastReading(last, readings) + clock.interval < TWO_64
    ensures OnGrid(HandleAll(clock, readings), start, LastReading(last, readings))
    decreases |readings|
  {
    if readings != [] {
      var before, now := readings[..|readings| - 1], readings[|readings| - 1];
      NoDrift(clock, start, last, before);
      HandleStaysOnGrid(HandleAll(clock, before), start, LastReading(last, before), now);
      NextPointIsClose(start, clock.interval, now);
    }
  }

  // ---- Sleeping ----

  /** Ticks measure time to within one interval either way: d ticks between two readings mean that more than
      d - 1 intervals passed between them, and fewer than d ticks that less than d + 1 did. So a sleep of d
      ticks is never short by an interval. */
  lemma TicksMeasureTime(start: Word, interval: Word, first: Word, second: Word, d: nat)
    requires interval > 0 && start <= first <= second && d >= 1
    ensures (second - start) / interval - (first - start) / interval >= d ==> second - first > (d - 1) * interval
    ensures (second - start) / interval - (first - start) / interval < d ==> second - first < d * interval + interval
  {
    var m, n := (first - start) / interval, (second - start) / interval;
    QuotientBounds(first - start, interval);
    QuotientBounds(second - start, interval);
    if n - m >= d {
      MultiplyGap(m + 1, n, d - 1, interval);
    } else {
      MultiplyGap(n + 1, m + d, 0, interval);
      assert (m + d) * interval == m * interval + d * interval;
    }
  }

  lemma MultiplyGap(a: nat, b: nat, gap: nat, interval: nat)
    requires a + gap <= b
    ensures a * interval + gap * interval <= b * interval
  {
    assert (b - a - gap) * interval >= 0;
    assert b * interval == a * interval + gap * interval + (b - a - gap) * interval;
  }

  /** The promise of timer_sleep_ticks, stated for the condition it ends on: once the ticks have grown by d, as
      64-bit words, since the value it started from, the counter has advanced by more than d - 1 whole
      intervals between the handler readings behind the two values; and while it goes on waiting, by less
      than d + 1. */
  lemma SleepIsLongEnough(clock: Clock, start: Word, first: Word, readings: seq<Word>, d: Word)
    requires OnGrid(clock, start, first) && Forward(first, readings) && d >= 1
    requires LastReading(first, readings) + clock.interval < TWO_64
    ensures var second := LastReading(first, readings);
      var elapsed := Wrap64(HandleAll(clock, readings).ticks - clock.ticks);
      && (elapsed >= d ==> second > first + (d - 1) * clock.interval)
      && (elapsed < d ==> second < first + (d + 1) * clock.interval)
  {
    var second := LastReading(first, readings);
    NoDrift(clock, start, first, readings);
    ForwardIsLater(first, readings);
    var gone := HandleAll(clock, readings).ticks - clock.ticks;
    TicksNeverGoBack(start, clock.interval, first, second);
    NoWrap(gone);
    TicksMeasureTime(start, clock.interval, first, second, d);
    assert d * clock.interval + clock.interval == (d + 1) * clock.interval;
  }

  lemma {:induction false} ForwardIsLater(from: Word, readings: seq<Word>)
    requires Forward(from, readings)
    ensures from <= LastReading(from, readings)
  {
    if readings != [] {
      ForwardIsLater(from, readings[..|readings| - 1]);
    }
  }

  lemma TicksNeverGoBack(start: Word, interval: Word, first: Word, second: Word)
    requires interval > 0 && start <= first <= second
    ensures (first - start) / interval <= (second - start) / interval
  {
    var m, n := (first - start) / interval, (second - start) / interval;
    QuotientBounds(first - start, interval);
    QuotientBounds(second - start, interval);
    if n < m {
      MultiplyGap(n + 1, m, 0, interval);
    }
  }

  /** What ends a WFE: the timer handler, with its reading, or some other event. */
  datatype Wake = TimerWake(now: Word) | OtherWake

  function Readings(wakes: seq<Wake>): seq<Word> {
    if wakes == [] then []
    else
      var last := wakes[|wakes| - 1];
      Readings(wakes[..|wakes| - 1]) + (if last.TimerWake? then [last.now] else [])
  }

  lemma NothingHandled(clock: Clock, wakes: seq<Wake>)
    requires clock.interval > 0
    ensures HandleAll(clock, Readings(wakes[..0])) == clock
  {
  }

  lemma HandleNext(clock: Clock, wakes: seq<Wake>, n: nat)
    requires clock.interval > 0 && n < |wakes|
    ensures var now := HandleAll(clock, Readings(wakes[..n]));
      HandleAll(clock, Readings(wakes[..n + 1])) ==
        match wakes[n]
        case TimerWake(reading) => Handle(now, reading)
        case OtherWake => now
  {
    assert wakes[..n + 1][..n] == wakes[..n];
    var readings := Readings(wakes[..n]);
    if wakes[n].TimerWake? {
      assert (readings + [wakes[n].now])[..|readings|] == readings;
    } else {
      assert readings + [] == readings;
    }
  }

  class TickTimer {
    var tickCount: Word
    var nextDeadline: Word
    var tickInterval: Word

    ghost function State(): Clock
      reads this
    {
      Clock(tickCount, nextDeadline, tickInterval)
    }

    constructor (frequency: Word, now: Word)
      ensures State() == Start(frequency, now)
    {
      tickCount := 0;
      tickInterval := if frequency / TICKS_PER_SECOND == 0 then 1 else frequency / TICKS_PER_SECOND;
      nextDeadline := Wrap64(now + (if frequency / TICKS_PER_SECOND == 0 then 1 else frequency / TICKS_PER_SECOND));
    }

    method HandleInterrupt(now: Word)
      requires tickInterval > 0
      modifies this
      ensures State() == Handle(old(State()), now)
    {
      if now >= nextDeadline {
        var elapsedTicks := Wrap64((now - nextDeadline) / tickInterval + 1);
        tickCount := Wrap64(tickCount + elapsedTicks);
        nextDeadline := Wrap64(nextDeadline + elapsedTicks * tickInterval);
      }
    }

    /** timer_sleep_ticks: waits, and after every wake looks again; an early wake does not end it early, and
        it ends at the first wake at which enough ticks have passed. */
    method SleepTicks(duration: Word, wakes: seq<Wake>) returns (taken: nat, done: bool)
      requires tickInterval > 0
      modifies this
      ensures taken <= |wakes| && State() == HandleAll(old(State()), Readings(wakes[..taken]))
      ensures done <==> Wrap64(tickCount - old(tickCount)) >= duration
      ensures !done ==> taken == |wakes|
      ensures forall n :: 0 <= n < taken ==>
                Wrap64(HandleAll(old(State()), Readings(wakes[..n])).ticks - old(tickCount)) < duration
    {
      hide Wrap64, Handle, HandleAll, Readings;
      var start: int := tickCount;
      taken := 0;
      ghost var before := State();
      NothingHandled(before, wakes);
      while Wrap64(tickCount - start) < duration && taken < |wakes|
        invariant taken <= |wakes| && tickInterval == before.interval
        invariant State() == HandleAll(before, Readings(wakes[..taken]))
        invariant forall n :: 0 <= n < taken ==>
                    Wrap64(HandleAll(before, Readings(wakes[..n])).ticks - start) < duration
        decreases |wakes| - taken
      {
        HandleNext(before, wakes, taken);
        if wakes[taken].TimerWake? {
          HandleInterrupt(wakes[taken].now);
        }
        taken := taken + 1;
      }
      done := Wrap64(tickCount - start) >= duration;
    }
  }
}
