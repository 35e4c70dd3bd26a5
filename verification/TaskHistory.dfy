/**
 What the history of a run says about the present: the counters, and the register contexts.
 */
module TaskHistory {
  import opened Bits
  import opened PageAlloc
  import opened Task
  import opened TaskOwnership

  // ---- Totals over the slots ----

  datatype Tally = Tally(occupied: nat, finished: nat, schedules: nat, corrupted: nat)

  function Weigh(slot: Slot): Tally {
    Tally(
      if slot.state != Unused then 1 else 0,
      if slot.state == Finished then 1 else 0,
      slot.scheduleCount,
      if slot.stackCorrupted then 1 else 0)
  }

  function Count(tasks: seq<Slot>): Tally {
    if tasks == [] then Tally(0, 0, 0, 0)
    else
      var most, one := Count(tasks[..|tasks| - 1]), Weigh(tasks[|tasks| - 1]);
      Tally(most.occupied + one.occupied, most.finished + one.finished,
            most.schedules + one.schedules, most.corrupted + one.corrupted)
  }

  lemma {:induction false} CountUpdate(tasks: seq<Slot>, i: nat, slot: Slot)
    requires i < |tasks|
    ensures var before, after, gone, come := Count(tasks), Count(tasks[i := slot]), Weigh(tasks[i]), Weigh(slot);
      && after.occupied == before.occupied - gone.occupied + come.occupied
      && after.finished == before.finished - gone.finished + come.finished
      && after.schedules == before.schedules - gone.schedules + come.schedules
      && after.corrupted == before.corrupted - gone.corrupted + come.corrupted
  {
    var last := |tasks| - 1;
    if i == last {
      assert tasks[i := slot][..last] == tasks[..last];
    } else {
      CountUpdate(tasks[..last], i, slot);
      assert tasks[i := slot][..last] == tasks[..last][i := slot];
    }
  }

  /** What Dispatch does to the totals. */
  lemma CountDispatch(k: Kernel, left: TaskState, next: nat)
    requires k.current < |k.tasks| && k.tasks[k.current].state == Running
    requires next < |k.tasks| && k.tasks[next].state == Ready && next != k.current
    requires left == Ready || left == Finished
    ensures var before, after := Count(k.tasks), Count(Dispatch(k, left, next).tasks);
      && after.occupied == before.occupied
      && after.finished == before.finished + (if left == Finished then 1 else 0)
      && after.schedules == before.schedules + 1
      && after.corrupted == before.corrupted
  {
    var previous := k.tasks[k.current].(state := left, context := k.cpu);
    CountUpdate(k.tasks, k.current, previous);
    CountUpdate(k.tasks[k.current := previous], next, Dispatch(k, left, next).tasks[next]);
    DispatchSlots(k, left, next);
  }

  /** As many corrupted slots as there are slots at most - and one fewer, since slot 0 has no stack page. */
  lemma {:induction false} CorruptedBounded(tasks: seq<Slot>)
    ensures Count(tasks).corrupted <= |tasks|
    ensures |tasks| > 0 && !tasks[0].stackCorrupted ==> Count(tasks).corrupted <= |tasks| - 1
  {
    if tasks != [] {
      CorruptedBounded(tasks[..|tasks| - 1]);
    }
  }

  /** How many switches of the log were made by task_yield. */
  function Handoffs(log: seq<Event>): nat {
    if log == [] then 0
    else
      var e := log[|log| - 1];
      Handoffs(log[..|log| - 1]) + if e.Switched? && !e.exiting then 1 else 0
  }

  lemma HandoffsAppend(log: seq<Event>, e: Event)
    ensures Handoffs(log + [e]) == Handoffs(log) + if e.Switched? && !e.exiting then 1 else 0
  {
    assert (log + [e])[..|log|] == log;
  }

  // ---- Conservation of the counters ----

  /** Every task created is still in its slot or was reaped; every task that left is FINISHED or was
      reaped; every switch was an exit or a yield that found a successor, of which there are no more than
      calls of task_yield that got past its check; every switch, and the start of slot 0, scheduled some task once; and stack errors are the slots marked corrupted. */
  ghost predicate Counted(k: Kernel) {
    var tally := Count(k.tasks);
    && 1 + k.createdTasks == k.reapedTasks + tally.occupied
    && k.exitedTasks == k.reapedTasks + tally.finished
    && k.contextSwitches == k.exitedTasks + Handoffs(k.log) && Handoffs(k.log) <= k.yieldCalls
    && 1 + k.contextSwitches == tally.schedules + k.retiredSchedules
    && k.stackErrors == tally.corrupted
  }

  lemma RecordKeepsCounted(k: Kernel, task: nat)
    requires Shape(k) && Counted(k) && task < |k.tasks|
    ensures Counted(RecordStackError(k, task))
  {
    CountUpdate(k.tasks, task, k.tasks[task].(stackCorrupted := true));
  }

  lemma DispatchKeepsCounted(k: Kernel, left: TaskState, next: nat)
    requires Counted(k) && k.current < |k.tasks| && k.tasks[k.current].state == Running
    requires next < |k.tasks| && k.tasks[next].state == Ready && next != k.current
    requires left == Ready || left == Finished
    ensures Counted(Dispatch(if left == Finished then CountExit(k) else CountYield(k), left, next))
  {
    var leaving := if left == Finished then CountExit(k) else CountYield(k);
    CountDispatch(leaving, left, next);
    HandoffsAppend(k.log, Switched(k.current, next, k.cpu, k.tasks[next].context, left == Finished));
  }

  lemma OccupyKeepsCounted(k: Kernel, task: nat, page: Word, entry: Word, argument: Word)
    requires Counted(k) && 1 <= task < |k.tasks| <= 0x8000_0000 && k.tasks[task] == CLEARED
    requires |k.alloc.memory| == RAM_WORDS && IsPage(page)
    ensures Counted(Occupy(k, task, page, entry, argument))
  {
    var c := Occupy(k, task, page, entry, argument);
    CountUpdate(k.tasks, task, c.tasks[task]);
    HandoffsAppend(k.log, c.log[|k.log|]);
  }

  lemma CreateKeepsCounted(k: Kernel, entry: Word, argument: Word)
    requires Owned(k) && Counted(k)
    ensures Counted(TaskCreate(k, entry, argument).0)
  {
    var (c, task) := TaskCreate(k, entry, argument);
    CreateIsOccupy(k, entry, argument);
    if task != TASK_ID_INVALID {
      var (alloc, page) := Allocate(k.alloc);
      AllocateIsFresh(k.alloc);
      OccupyKeepsCounted(k.(alloc := alloc), task, page, entry, argument);
    }
  }

  lemma VacateKeepsCounted(k: Kernel, task: nat, alloc: Allocator)
    requires Counted(k) && task < |k.tasks| && k.tasks[task].state == Finished && !k.tasks[task].stackCorrupted
    ensures Counted(Vacate(k, task, alloc))
  {
    CountUpdate(k.tasks, task, CLEARED);
  }

  lemma ReapKeepsCounted(k: Kernel, task: nat)
    requires Shape(k) && Counted(k)
    ensures Counted(TaskReap(k, task).0)
  {
    hide Inv, Vacate;
    if k.current == 0 && 1 <= task < |k.tasks| && k.tasks[task].state == Finished {
      RecordKeepsCounted(k, task);
      var r := RecordStackError(k, task);
      if !r.tasks[task].stackCorrupted {
        VacateKeepsCounted(r, task, Release(r.alloc, r.tasks[task].stackPage).0);
      }
    }
  }

  // ---- Contexts ----

  /** What the log says a task would resume with. */
  datatype Origin =
    | Unknown
    | Fresh(page: Word)
    | Suspended(saved: Registers)
    | Gone

  function NowSeen(e: Event, task: nat, before: Origin): Origin {
    match e
    case Created(t, page, _, _) => if t == task then Fresh(page) else before
    case Switched(from, _, saved, _, exiting) =>
      if from != task then before else if exiting then Gone else Suspended(saved)
  }

  /** The last thing that happened to a slot's context: created, switched out, or left for good. */
  function LastSeen(log: seq<Event>, task: nat): Origin {
    if log == [] then Unknown
    else NowSeen(log[|log| - 1], task, LastSeen(log[..|log| - 1], task))
  }

  predicate ResumesWith(origin: Origin, bootstrap: Word, context: Registers) {
    match origin
    case Fresh(page) => context == FirstContext(page, bootstrap)
    case Suspended(saved) => context == saved
    case _ => false
  }

  /** Every switch of the log gave the incoming task the registers it last had: those it was switched out
      with, or those of a first run; and it never went to a task that had left. */
  ghost predicate Faithful(log: seq<Event>, bootstrap: Word) {
    forall i :: 0 <= i < |log| && log[i].Switched? ==>
      ResumesWith(LastSeen(log[..i], log[i].to), bootstrap, log[i].loaded)
  }

  function NowBorn(e: Event, task: nat, before: (Word, Word, Word)): (Word, Word, Word) {
    if e.Created? && e.task == task then (e.page, e.entry, e.argument) else before
  }

  /** The stack page, entry function and argument of the last creation in a slot. */
  function BornWith(log: seq<Event>, task: nat): (Word, Word, Word) {
    if log == [] then (NULL, NULL, NULL)
    else NowBorn(log[|log| - 1], task, BornWith(log[..|log| - 1], task))
  }

  ghost predicate Transparent(k: Kernel) {
    && Faithful(k.log, k.bootstrap)
    && (forall t :: 0 <= t < |k.tasks| && k.tasks[t].state == Ready ==>
          ResumesWith(LastSeen(k.log, t), k.bootstrap, k.tasks[t].context))
    && (forall t :: 1 <= t < |k.tasks| && k.tasks[t].state != Unused ==>
          BornWith(k.log, t) == (k.tasks[t].stackPage, k.tasks[t].entry, k.tasks[t].argument))
  }

  lemma LastSeenAppend(log: seq<Event>, e: Event)
    ensures (log + [e])[..|log|] == log
    ensures forall t :: LastSeen(log + [e], t) == NowSeen(e, t, LastSeen(log, t))
    ensures forall t :: BornWith(log + [e], t) == NowBorn(e, t, BornWith(log, t))
  {
    assert (log + [e])[..|log|] == log;
  }

  lemma FaithfulAppend(log: seq<Event>, bootstrap: Word, e: Event)
    requires Faithful(log, bootstrap)
    requires e.Switched? ==> ResumesWith(LastSeen(log, e.to), bootstrap, e.loaded)
    ensures Faithful(log + [e], bootstrap)
  {
    var more := log + [e];
    forall i | 0 <= i < |more| && more[i].Switched?
      ensures ResumesWith(LastSeen(more[..i], more[i].to), bootstrap, more[i].loaded)
    {
      assert more[..i] == log[..i];
      if i == |log| {
        assert log[..i] == log;
      }
    }
  }

  lemma DispatchKeepsTransparent(k: Kernel, left: TaskState, next: nat)
    requires Owned(k) && Transparent(k)
    requires next < |k.tasks| && k.tasks[next].state == Ready && next != k.current
    requires left == Ready || left == Finished
    ensures Transparent(Dispatch(k, left, next))
  {
    var e := Switched(k.current, next, k.cpu, k.tasks[next].context, left == Finished);
    LastSeenAppend(k.log, e);
    FaithfulAppend(k.log, k.bootstrap, e);
  }

  lemma CreateKeepsTransparent(k: Kernel, entry: Word, argument: Word)
    requires Owned(k) && Transparent(k)
    ensures Transparent(TaskCreate(k, entry, argument).0)
  {
    CreateIsOccupy(k, entry, argument);
    var (c, task) := TaskCreate(k, entry, argument);
    if task != TASK_ID_INVALID {
      var e := c.log[|k.log|];
      LastSeenAppend(k.log, e);
      FaithfulAppend(k.log, k.bootstrap, e);
    }
  }
}
