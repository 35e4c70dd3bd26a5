/**
 What each operation of the scheduler comes to, field by field: slots, registers and counters afterwards in
 terms of those before, whatever way the operation takes to get there.
 */
module TaskOutcomes {
  import opened Bits
  import opened PageAlloc
  import opened Task
  import opened TaskOwnership

  // ---- Before task_init ----

  /** Until task_init has run, the other operations do nothing. */
  lemma NothingBeforeInit(k: Kernel, entry: Word, argument: Word, task: nat)
    requires Shape(k) && !k.initialized
    ensures TaskYield(k) == k && TaskExit(k) == k
    ensures TaskCreate(k, entry, argument) == (k, TASK_ID_INVALID) && TaskReap(k, task) == (k, false)
  {
  }

  /** task_init leaves slot 0 RUNNING, scheduled once, all other slots empty and all counters zero; a second
      call does nothing. RAM and registers are not its business. */
  lemma InitOutcome(k: Kernel)
    requires 1 <= |k.tasks|
    ensures var after := TaskInit(k);
      && after.initialized && (k.initialized ==> after == k)
      && (!k.initialized ==>
            && |after.tasks| == |k.tasks| && after.current == 0
            && after.tasks[0] == Slot(NO_CONTEXT, NULL, NULL, NULL, Running, false, 1)
            && (forall t :: 1 <= t < |k.tasks| ==> after.tasks[t] == Slot(NO_CONTEXT, NULL, NULL, NULL, Unused, false, 0))
            && after.createdTasks == after.contextSwitches == after.yieldCalls == 0
            && after.exitedTasks == after.reapedTasks == after.stackErrors == 0
            && after.alloc == k.alloc && after.cpu == k.cpu && after.bootstrap == k.bootstrap)
  {
  }

  // ---- Giving up the CPU ----

  /** What no change of tasks touches. */
  ghost predicate Undisturbed(k: Kernel, after: Kernel) {
    && after.alloc == k.alloc && after.initialized == k.initialized && after.bootstrap == k.bootstrap
    && after.createdTasks == k.createdTasks && after.reapedTasks == k.reapedTasks && after.halted == k.halted
  }

  predicate NobodyReady(k: Kernel) {
    forall t :: 0 <= t < |k.tasks| ==> k.tasks[t].state != Ready
  }

  /** The READY slot nearest after the current one has the CPU, with all of the registers it was left with;
      the current slot is left as given, with all of the registers the CPU had; nothing else changes hands. */
  ghost predicate HandedOver(k: Kernel, after: Kernel, left: TaskState)
    requires k.current < |k.tasks|
  {
    var me, next := k.current, after.current;
    && next < |k.tasks| == |after.tasks| && next != me && k.tasks[next].state == Ready
    && (forall t :: 0 <= t < |k.tasks| && k.tasks[t].state == Ready ==>
          Distance(|k.tasks|, me, next) <= Distance(|k.tasks|, me, t))
    && after.cpu == k.tasks[next].context
    && after.tasks[me].context == k.cpu && after.tasks[me].state == left
    && after.tasks[me].entry == k.tasks[me].entry && after.tasks[me].argument == k.tasks[me].argument
    && after.tasks[me].stackPage == k.tasks[me].stackPage
    && after.tasks[me].scheduleCount == k.tasks[me].scheduleCount
    && after.tasks[next] == k.tasks[next].(state := Running, scheduleCount := k.tasks[next].scheduleCount + 1)
    && (forall t :: 0 <= t < |k.tasks| && t != me && t != next ==> after.tasks[t] == k.tasks[t])
    && after.contextSwitches == k.contextSwitches + 1
    && after.log == k.log + [Switched(me, next, k.cpu, k.tasks[next].context, left == Finished)]
  }

  /** The stack of a slot above 0 was found corrupted before, or its canary is wrong now. */
  predicate Broken(k: Kernel, task: nat)
    requires Shape(k) && task < |k.tasks|
  {
    var slot := k.tasks[task];
    task != 0 && (slot.stackCorrupted ||
      (slot.stackPage != NULL && PageWord(k.alloc.memory, slot.stackPage, 0) != Xor(0x7461_736b_7374_616b, task)))
  }

  function NewlyBroken(k: Kernel, task: nat): nat
    requires Shape(k) && task < |k.tasks|
  {
    if Broken(k, task) && !k.tasks[task].stackCorrupted then 1 else 0
  }

  lemma DispatchHandsOver(k: Kernel, left: TaskState)
    requires Owned(k) && FindNextReady(k.tasks, k.current) != TASK_ID_INVALID
    ensures var next := FindNextReady(k.tasks, k.current);
      && next < |k.tasks| && next != k.current
      && HandedOver(k, Dispatch(k, left, next), left) && Undisturbed(k, Dispatch(k, left, next))
      && Dispatch(k, left, next).tasks[k.current].stackCorrupted == k.tasks[k.current].stackCorrupted
      && Dispatch(k, left, next).stackErrors == k.stackErrors
      && Dispatch(k, left, next).yieldCalls == k.yieldCalls && Dispatch(k, left, next).exitedTasks == k.exitedTasks
  {
    hide Inv;
    FindReadyIsNearest(k.tasks, k.current, 1);
    DispatchSlots(k, left, FindNextReady(k.tasks, k.current));
  }

  /** Checking the current slot's canary changes its mark, the error count, and nothing else. */
  lemma RecordOutcome(k: Kernel, task: nat)
    requires Owned(k) && task < |k.tasks|
    ensures var r := RecordStackError(k, task);
      && Owned(r) && r == k.(tasks := r.tasks, stackErrors := k.stackErrors + NewlyBroken(k, task))
      && r.tasks == k.tasks[task := k.tasks[task].(stackCorrupted := Broken(k, task))]
      && FindNextReady(r.tasks, k.current) == FindNextReady(k.tasks, k.current)
  {
    hide Inv;
    RecordKeepsOwned(k, task);
    if k.tasks[task].stackCorrupted == Broken(k, task) {
      assert k.tasks[task := k.tasks[task]] == k.tasks;
    }
    SameReadySameChoice(RecordStackError(k, task).tasks, k.tasks, k.current, 1);
  }

  /** Handing over after the check is handing over. */
  lemma HandedOverAfterCheck(k: Kernel, r: Kernel, after: Kernel, left: TaskState)
    requires k.current < |k.tasks| && r.current == k.current && r.cpu == k.cpu && r.log == k.log
    requires r.contextSwitches == k.contextSwitches
    requires exists mark :: r.tasks == k.tasks[k.current := k.tasks[k.current].(stackCorrupted := mark)]
    requires HandedOver(r, after, left)
    ensures HandedOver(k, after, left)
  {
  }

  /** The task that leaves, corrupted or not, is FINISHED, and the next one has the CPU. */
  lemma LeavingOutcome(k: Kernel)
    requires Owned(k) && k.current != 0
    ensures var after := ExitCurrent(k);
      && |after.tasks| == |k.tasks| && HandedOver(k, after, Finished) && Undisturbed(k, after)
      && after.tasks[k.current].stackCorrupted == Broken(k, k.current)
      && after.stackErrors == k.stackErrors + NewlyBroken(k, k.current)
      && after.exitedTasks == k.exitedTasks + 1 && after.yieldCalls == k.yieldCalls
  {
    hide Inv, RecordStackError, Leave, Dispatch, Broken, NewlyBroken, HandedOver;
    RecordOutcome(k, k.current);
    var r := RecordStackError(k, k.current);
    LeaveIsDispatch(r);
    assert Owned(CountExit(r));
    DispatchHandsOver(CountExit(r), Finished);
    HandedOverAfterCheck(k, CountExit(r), Leave(r), Finished);
  }

  /** task_yield. A task whose canary is wrong is marked, counted, and sent away for good; any other hands the
      CPU to the nearest READY task and stays READY, or goes on if there is none. */
  lemma YieldOutcome(k: Kernel)
    requires Owned(k)
    ensures var after := TaskYield(k);
      && Undisturbed(k, after)
      && |after.tasks| == |k.tasks| && after.tasks[k.current].stackCorrupted == Broken(k, k.current)
      && after.stackErrors == k.stackErrors + NewlyBroken(k, k.current)
      && (if Broken(k, k.current) then
            && HandedOver(k, after, Finished)
            && after.exitedTasks == k.exitedTasks + 1 && after.yieldCalls == k.yieldCalls
          else
            && (if NobodyReady(k) then
                  && after.current == k.current && after.cpu == k.cpu && after.tasks == k.tasks
                  && after.contextSwitches == k.contextSwitches && after.log == k.log
                else HandedOver(k, after, Ready))
            && after.exitedTasks == k.exitedTasks && after.yieldCalls == k.yieldCalls + 1)
  {
    hide Inv, RecordStackError, GiveWay, ExitCurrent, Dispatch, HandedOver;
    RecordOutcome(k, k.current);
    if Broken(k, k.current) {
      YieldIsExit(k);
      LeavingOutcome(k);
    } else {
      YieldIsGiveWay(k);
      GiveWayOutcome(k);
    }
  }

  lemma YieldIsExit(k: Kernel)
    requires Owned(k) && Broken(k, k.current)
    ensures TaskYield(k) == ExitCurrent(k)
  {
    hide Inv, Leave, GiveWay;
  }

  lemma YieldIsGiveWay(k: Kernel)
    requires Owned(k) && !Broken(k, k.current)
    ensures TaskYield(k) == GiveWay(k)
  {
    hide Inv, ExitCurrent, GiveWay;
  }

  lemma GiveWayOutcome(k: Kernel)
    requires Owned(k)
    ensures var after := GiveWay(k);
      && Undisturbed(k, after) && after.stackErrors == k.stackErrors
      && |after.tasks| == |k.tasks| && after.tasks[k.current].stackCorrupted == k.tasks[k.current].stackCorrupted
      && (if NobodyReady(k) then
            && after.current == k.current && after.cpu == k.cpu && after.tasks == k.tasks
            && after.contextSwitches == k.contextSwitches && after.log == k.log
          else HandedOver(k, after, Ready))
      && after.exitedTasks == k.exitedTasks && after.yieldCalls == k.yieldCalls + 1
  {
    hide Inv, Dispatch, GiveWay;
    GiveWayIsDispatch(k);
    FindReadyIsNearest(k.tasks, k.current, 1);
    if FindNextReady(k.tasks, k.current) != TASK_ID_INVALID {
      assert Owned(CountYield(k));
      DispatchHandsOver(CountYield(k), Ready);
    }
  }

  /** task_exit. From slot 0 it is a yield; from any other it ends the task, marked and counted if its canary
      is wrong. */
  lemma ExitOutcome(k: Kernel)
    requires Owned(k)
    ensures var after := TaskExit(k);
      if k.current == 0 then after == TaskYield(k)
      else
        && |after.tasks| == |k.tasks| && HandedOver(k, after, Finished) && Undisturbed(k, after)
        && after.tasks[k.current].stackCorrupted == Broken(k, k.current)
        && after.stackErrors == k.stackErrors + NewlyBroken(k, k.current)
        && after.exitedTasks == k.exitedTasks + 1 && after.yieldCalls == k.yieldCalls
  {
    hide Inv, ExitCurrent, TaskYield, HandedOver, Undisturbed, Broken, NewlyBroken;
    if k.current != 0 {
      LeavingOutcome(k);
    }
  }

  /** The check does its work: a task that comes into the kernel with a broken canary not yet recorded is
      recorded, and has run for the last time. */
  lemma BrokenCanaryEndsTask(k: Kernel)
    requires Owned(k) && k.current != 0 && !k.tasks[k.current].stackCorrupted
    requires !StackCanaryOk(k.alloc.memory, k.tasks[k.current], k.current)
    ensures forall after :: after in {TaskYield(k), TaskExit(k)} ==>
      && |after.tasks| == |k.tasks| && after.current != k.current
      && after.tasks[k.current].state == Finished && after.tasks[k.current].stackCorrupted
      && after.stackErrors == k.stackErrors + 1
  {
    hide Inv, TaskYield, TaskExit;
    YieldOutcome(k);
    ExitOutcome(k);
  }

  // ---- Creating ----

  /** task_create. With no entry function, no unused slot or no free page it fails and changes nothing. Otherwise
      it takes the first unused slot and a page that was not live: the slot has the entry and argument given, is
      READY, and will start with SP at the end of the page and a return into task_bootstrap; word 0 of the page
      holds the slot's canary, the rest of it zeros. No other slot, word of another page, or register changes. */
  lemma CreateOutcome(k: Kernel, entry: Word, argument: Word)
    requires Owned(k)
    ensures var (c, task) := TaskCreate(k, entry, argument);
      if entry == NULL || FreePages(k.alloc) == 0 || (forall t :: 1 <= t < |k.tasks| ==> k.tasks[t].state != Unused) then
        c == k && task == TASK_ID_INVALID
      else
        && 1 <= task < |k.tasks| == |c.tasks|
        && k.tasks[task].state == Unused && (forall t :: 1 <= t < task ==> k.tasks[t].state != Unused)
        && NewTask(k, c, task, entry, argument)
  {
    hide Inv, TaskCreate, Occupy, NewTask;
    CreateIsOccupy(k, entry, argument);
    var task := FirstUnused(k.tasks, 1);
    if entry != NULL && FreePages(k.alloc) != 0 && task < |k.tasks| {
      AllocateIsFresh(k.alloc);
      OccupyMakesTask(k, task, entry, argument);
    }
  }

  ghost predicate NewTask(k: Kernel, c: Kernel, task: nat, entry: Word, argument: Word)
    requires Owned(k) && task < |k.tasks| == |c.tasks|
  {
    var slot := c.tasks[task];
    && slot.entry == entry && slot.argument == argument
    && slot.state == Ready && !slot.stackCorrupted && slot.scheduleCount == 0
    && IsPage(slot.stackPage) && !Live(k.alloc, slot.stackPage)
    && slot.context == Registers(0, 0, 0, 0, 0, 0, 0, 0, 0, 0, 0, k.bootstrap, slot.stackPage + PAGE_SIZE)
    && (forall t :: 0 <= t < |k.tasks| && t != task ==> c.tasks[t] == k.tasks[t])
    && |c.alloc.memory| == RAM_WORDS
    && PageWord(c.alloc.memory, slot.stackPage, 0) == Xor(0x7461_736b_7374_616b, task)
    && (forall w :: 1 <= w < PAGE_WORDS ==> PageWord(c.alloc.memory, slot.stackPage, w) == 0)
    && (forall i :: 0 <= i < RAM_WORDS && PageOf(i) != slot.stackPage ==> c.alloc.memory[i] == k.alloc.memory[i])
    && (forall p :: Live(c.alloc, p) <==> Live(k.alloc, p) || p == slot.stackPage)
    && c.log == k.log + [Created(task, slot.stackPage, entry, argument)]
    && c == k.(alloc := c.alloc, tasks := c.tasks, log := c.log, createdTasks := k.createdTasks + 1)
  }

  lemma OccupyMakesTask(k: Kernel, task: nat, entry: Word, argument: Word)
    requires Owned(k) && 1 <= task < |k.tasks| && Allocate(k.alloc).1 != NULL
    requires IsPage(Allocate(k.alloc).1) && |Allocate(k.alloc).0.memory| == RAM_WORDS
    ensures var (alloc, page) := Allocate(k.alloc);
      var c := Occupy(k.(alloc := alloc), task, page, entry, argument);
      |c.tasks| == |k.tasks| && NewTask(k, c, task, entry, argument)
  {
    hide Inv, Live;
    AllocateIsFresh(k.alloc);
    var (alloc, page) := Allocate(k.alloc);
    PageIndices(page);
    StoreKeepsLinks(alloc, WordAt(page), StackCanary(task));
  }

  // ---- Reaping ----

  /** task_reap. It takes a FINISHED slot with a sound stack, when slot 0 asks: the slot is empty and its page
      live no more. A FINISHED slot with a broken stack is marked, and counted once. In every other case nothing
      changes. */
  lemma ReapOutcome(k: Kernel, task: nat)
    requires Owned(k)
    ensures var (c, reaped) := TaskReap(k, task);
      if k.current != 0 || task >= |k.tasks| || k.tasks[task].state != Finished then c == k && !reaped
      else if Broken(k, task) then
        && !reaped
        && c == k.(tasks := k.tasks[task := k.tasks[task].(stackCorrupted := true)],
                   stackErrors := k.stackErrors + NewlyBroken(k, task))
      else
        && reaped
        && c == k.(alloc := c.alloc, reapedTasks := k.reapedTasks + 1, retiredSchedules := c.retiredSchedules,
                   tasks := k.tasks[task := Slot(NO_CONTEXT, NULL, NULL, NULL, Unused, false, 0)])
        && |c.alloc.memory| == RAM_WORDS
        && (forall p :: Live(c.alloc, p) <==> Live(k.alloc, p) && p != k.tasks[task].stackPage)
        && (forall i :: 0 <= i < RAM_WORDS && PageOf(i) != k.tasks[task].stackPage ==>
              c.alloc.memory[i] == k.alloc.memory[i])
  {
    hide Inv, Live, RecordStackError;
    if k.current == 0 && task < |k.tasks| && k.tasks[task].state == Finished {
      assert task != 0;
      RecordOutcome(k, task);
      var page := k.tasks[task].stackPage;
      StackIsLive(k, task);
      ReleaseTakesBack(k.alloc, page);
      PageIndices(page);
      if !Broken(k, task) {
        assert k.tasks[task := k.tasks[task].(stackCorrupted := false)] == k.tasks;
      }
    }
  }

  lemma StackIsLive(k: Kernel, task: nat)
    requires Owned(k) && 1 <= task < |k.tasks| && k.tasks[task].state != Unused
    ensures Live(k.alloc, k.tasks[task].stackPage) && IsPage(k.tasks[task].stackPage) && k.tasks[task].stackPage != NULL
  {
    LiveIsPage(k.alloc, k.tasks[task].stackPage);
  }
}
