/**
 Whole runs of the kernel: any sequence of calls and stores made by whichever task is running.
 */
module TaskRun {
  import opened Bits
  import opened PageAlloc
  import opened Task
  import opened TaskOwnership
  import opened TaskHistory

  /** What the running task does next. */
  datatype Step =
    | Create(entry: Word, argument: Word)
    | Yield
    | Exit
    | Reap(task: nat)
    | AllocPage
    | FreePage(page: Word)
    | StoreWord(index: nat, value: Word)
    | Compute(registers: Registers)

  /** What the kernel expects of its tasks: that they free no task's stack, and write to live pages only -
      their own stacks, other stacks and canaries included. */
  ghost predicate Permitted(k: Kernel, step: Step) {
    match step
    case FreePage(page) => !IsStack(k.tasks, page)
    case StoreWord(index, _) => index < RAM_WORDS && Live(k.alloc, PageOf(index))
    case _ => true
  }

  ghost predicate IsStack(tasks: seq<Slot>, page: nat) {
    exists i :: 1 <= i < |tasks| && tasks[i].state != Unused && tasks[i].stackPage == page
  }

  ghost function Apply(k: Kernel, step: Step): Kernel
    requires Shape(k) && Permitted(k, step)
  {
    match step
    case Create(entry, argument) => TaskCreate(k, entry, argument).0
    case Yield => TaskYield(k)
    case Exit => TaskExit(k)
    case Reap(task) => TaskReap(k, task).0
    case AllocPage => k.(alloc := Allocate(k.alloc).0)
    case FreePage(page) => k.(alloc := Release(k.alloc, page).0)
    case StoreWord(index, value) => k.(alloc := Store(k.alloc, index, value))
    case Compute(registers) => k.(cpu := registers)
  }

  ghost predicate Lawful(k: Kernel) {
    Owned(k) && Counted(k) && Transparent(k)
  }

  /** Between steps, a task whose stack was found corrupted has left. */
  ghost predicate Contained(tasks: seq<Slot>) {
    forall i :: 0 <= i < |tasks| && tasks[i].stackCorrupted ==> tasks[i].state == Finished
  }

  ghost predicate Invariant(k: Kernel) {
    Lawful(k) && Contained(k.tasks)
  }

  // ---- Start ----

  /** The kernel as task_init finds it: nothing has happened yet. */
  ghost predicate AtBoot(k: Kernel) {
    && Inv(k.alloc) && !k.initialized && !k.halted && 1 <= |k.tasks| <= 0x8000_0000
    && k.log == [] && k.retiredSchedules == 0
  }

  lemma InitEstablishesInvariant(k: Kernel)
    requires AtBoot(k)
    ensures Invariant(TaskInit(k))
  {
    var tasks := TaskInit(k).tasks;
    CountAtBoot(tasks);
  }

  lemma {:induction false} CountAtBoot(tasks: seq<Slot>)
    requires |tasks| >= 1 && tasks[0] == CLEARED.(state := Running, scheduleCount := 1)
    requires forall i :: 1 <= i < |tasks| ==> tasks[i] == CLEARED
    ensures Count(tasks) == Tally(1, 0, 1, 0)
  {
    if |tasks| > 1 {
      CountAtBoot(tasks[..|tasks| - 1]);
    } else {
      assert Count(tasks[..0]) == Tally(0, 0, 0, 0);
    }
  }

  // ---- Every step keeps the laws ----

  lemma RecordIsLawful(k: Kernel, task: nat)
    requires Lawful(k) && task < |k.tasks|
    ensures Lawful(RecordStackError(k, task))
  {
    hide Inv;
    RecordKeepsOwned(k, task);
    RecordKeepsCounted(k, task);
  }

  lemma GiveWayIsLawful(k: Kernel)
    requires Lawful(k)
    ensures Lawful(GiveWay(k))
  {
    GiveWayKeepsOwned(k);
    GiveWayIsDispatch(k);
    var y := CountYield(k);
    assert Owned(y) && Counted(y) && Transparent(y);
    var next := FindNextReady(k.tasks, k.current);
    if next != TASK_ID_INVALID {
      DispatchKeepsCounted(k, Ready, next);
      DispatchKeepsTransparent(y, Ready, next);
    }
  }

  lemma LeaveKeepsHistory(k: Kernel)
    requires Lawful(k) && k.current != 0
    ensures Counted(Leave(k)) && Transparent(Leave(k))
  {
    hide Inv, Counted;
    LeaveIsDispatch(k);
    var next := FindNextReady(k.tasks, k.current);
    DispatchKeepsCounted(k, Finished, next);
    assert Owned(CountExit(k)) && Transparent(CountExit(k));
    DispatchKeepsTransparent(CountExit(k), Finished, next);
  }

  lemma LeaveIsLawful(k: Kernel)
    requires Lawful(k) && k.current != 0
    ensures Lawful(Leave(k))
  {
    hide Inv, OwnedSlots, Counted, Transparent;
    LeaveKeepsOwned(k);
    LeaveKeepsHistory(k);
  }

  lemma ExitIsLawful(k: Kernel)
    requires Lawful(k) && k.current != 0
    ensures Lawful(ExitCurrent(k))
  {
    RecordIsLawful(k, k.current);
    LeaveIsLawful(RecordStackError(k, k.current));
  }

  lemma YieldIsLawful(k: Kernel)
    requires Lawful(k)
    ensures Lawful(TaskYield(k))
  {
    RecordIsLawful(k, k.current);
    var r := RecordStackError(k, k.current);
    if r.tasks[r.current].stackCorrupted && r.current != 0 {
      ExitIsLawful(r);
    } else {
      GiveWayIsLawful(r);
    }
  }

  lemma ReapIsLawful(k: Kernel, task: nat)
    requires Lawful(k)
    ensures Lawful(TaskReap(k, task).0)
  {
    ReapKeepsOwned(k, task);
    ReapKeepsCounted(k, task);
    ReapKeepsTransparent(k, task);
  }

  lemma CreateIsLawful(k: Kernel, entry: Word, argument: Word)
    requires Lawful(k)
    ensures Lawful(TaskCreate(k, entry, argument).0)
  {
    CreateKeepsOwned(k, entry, argument);
    CreateKeepsCounted(k, entry, argument);
    CreateKeepsTransparent(k, entry, argument);
  }

  /** Allocating, freeing and storing change RAM and the allocator, not the slots or the history. */
  lemma OwnershipIsEnough(k: Kernel, alloc: Allocator)
    requires Lawful(k) && OwnedSlots(alloc, k.tasks, k.current)
    ensures Lawful(k.(alloc := alloc))
  {
  }

  lemma ReapKeepsTransparent(k: Kernel, task: nat)
    requires Owned(k) && Transparent(k)
    ensures Transparent(TaskReap(k, task).0)
  {
  }

  /** page_free accepts a stack page as readily as any other, so the kernel relies on its tasks here: the
      ownership invariant survives page_free if and only if the page is no task's stack. */
  lemma FreeKeepsOwnedIff(k: Kernel, page: Word)
    requires Owned(k)
    ensures Owned(k.(alloc := Release(k.alloc, page).0)) <==> !IsStack(k.tasks, page)
  {
    ReleaseTakesBack(k.alloc, page);
    var f := k.(alloc := Release(k.alloc, page).0);
    if IsStack(k.tasks, page) {
      var i :| 1 <= i < |k.tasks| && k.tasks[i].state != Unused && k.tasks[i].stackPage == page;
      assert Live(k.alloc, page) && !Live(f.alloc, f.tasks[i].stackPage);
    }
  }

  lemma MemoryStepIsLawful(k: Kernel, step: Step)
    requires Lawful(k) && Permitted(k, step) && (step.AllocPage? || step.FreePage? || step.StoreWord?)
    ensures Lawful(Apply(k, step))
  {
    hide Counted, Transparent;
    match step
    case AllocPage =>
      AllocateIsFresh(k.alloc);
      OwnershipIsEnough(k, Allocate(k.alloc).0);
    case FreePage(page) =>
      FreeKeepsOwnedIff(k, page);
      OwnershipIsEnough(k, Release(k.alloc, page).0);
    case StoreWord(index, value) =>
      StoreKeepsLinks(k.alloc, index, value);
      OwnershipIsEnough(k, Store(k.alloc, index, value));
  }

  lemma StepIsLawful(k: Kernel, step: Step)
    requires Lawful(k) && Permitted(k, step)
    ensures Lawful(Apply(k, step))
  {
    hide Inv;
    match step
    case Create(entry, argument) =>
      CreateIsLawful(k, entry, argument);
    case Yield =>
      YieldIsLawful(k);
    case Exit =>
      if k.current == 0 {
        YieldIsLawful(k);
      } else {
        ExitIsLawful(k);
      }
    case Reap(task) =>
      ReapIsLawful(k, task);
    case AllocPage =>
      MemoryStepIsLawful(k, step);
    case FreePage(_) =>
      MemoryStepIsLawful(k, step);
    case StoreWord(_, _) =>
      MemoryStepIsLawful(k, step);
    case Compute(registers) =>
      assert OwnedSlots(k.alloc, k.tasks, k.current);
  }

  // ---- Every step keeps corrupted stacks contained ----

  /** ... the task about to leave excepted. */
  ghost predicate ContainedBut(tasks: seq<Slot>, leaving: nat) {
    forall i :: 0 <= i < |tasks| && i != leaving && tasks[i].stackCorrupted ==> tasks[i].state == Finished
  }

  lemma LeaveContains(k: Kernel)
    requires Owned(k) && k.current != 0
    requires ContainedBut(k.tasks, k.current)
    ensures Contained(Leave(k).tasks)
  {
    hide Inv;
    LeaveIsDispatch(k);
    DispatchSlots(CountExit(k), Finished, FindNextReady(k.tasks, k.current));
  }

  lemma ExitContains(k: Kernel)
    requires Owned(k) && k.current != 0
    requires ContainedBut(k.tasks, k.current)
    ensures Contained(ExitCurrent(k).tasks)
  {
    hide Inv, Leave;
    RecordKeepsOwned(k, k.current);
    LeaveContains(RecordStackError(k, k.current));
  }

  lemma GiveWayContains(k: Kernel)
    requires Owned(k) && Contained(k.tasks)
    ensures Contained(GiveWay(k).tasks)
  {
    hide Inv, GiveWay;
    GiveWayIsDispatch(k);
  }

  /** task_yield lets nobody go on whose stack it finds corrupted. */
  lemma YieldContains(k: Kernel)
    requires Owned(k) && Contained(k.tasks)
    ensures Contained(TaskYield(k).tasks)
  {
    hide Inv, ExitCurrent, GiveWay;
    RecordKeepsOwned(k, k.current);
    var r := RecordStackError(k, k.current);
    if r.tasks[r.current].stackCorrupted && r.current != 0 {
      ExitContains(r);
    } else {
      GiveWayContains(r);
    }
  }

  lemma StepContains(k: Kernel, step: Step)
    requires Owned(k) && Contained(k.tasks) && Permitted(k, step)
    ensures Contained(Apply(k, step).tasks)
  {
    hide Inv, TaskYield, ExitCurrent;
    match step
    case Create(entry, argument) =>
      CreateIsOccupy(k, entry, argument);
    case Yield =>
      YieldContains(k);
    case Exit =>
      if k.current == 0 {
        YieldContains(k);
      } else {
        ExitContains(k);
      }
    case Reap(_) =>
    case AllocPage =>
    case FreePage(_) =>
    case StoreWord(_, _) =>
    case Compute(_) =>
  }

  lemma StepKeepsInvariant(k: Kernel, step: Step)
    requires Invariant(k) && Permitted(k, step)
    ensures Invariant(Apply(k, step))
  {
    hide Lawful, Contained, Apply, Inv, OwnedSlots;
    LawfulIsOwned(k);
    StepIsLawful(k, step);
    StepContains(k, step);
  }

  lemma LawfulIsOwned(k: Kernel)
    requires Lawful(k)
    ensures Owned(k)
  {
  }

  // ---- Runs ----

  ghost predicate AllPermitted(k: Kernel, steps: seq<Step>)
    requires Invariant(k)
    decreases |steps|
  {
    steps != [] ==>
      Permitted(k, steps[0]) &&
      (StepKeepsInvariant(k, steps[0]); AllPermitted(Apply(k, steps[0]), steps[1..]))
  }

  ghost function Run(k: Kernel, steps: seq<Step>): (final: Kernel)
    requires Invariant(k) && AllPermitted(k, steps)
    ensures Invariant(final)
    decreases |steps|
  {
    if steps == [] then k
    else
      StepKeepsInvariant(k, steps[0]);
      Run(Apply(k, steps[0]), steps[1..])
  }
}
