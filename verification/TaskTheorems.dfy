/**
 What holds of every run of the kernel: stacks and canaries are safe from the allocator, damage is for
 ever, contexts come back unchanged, and nobody waits for ever.
 */
module TaskTheorems {
  import opened Bits
  import opened PageAlloc
  import opened Task
  import opened TaskOwnership
  import opened TaskOutcomes
  import opened TaskHistory
  import opened TaskRun

  ghost predicate InUse(k: Kernel, task: nat) {
    1 <= task < |k.tasks| && k.tasks[task].state != Unused
  }

  // ---- From boot ----

  ghost predicate PossibleFromBoot(k: Kernel, steps: seq<Step>)
    requires AtBoot(k)
  {
    InitEstablishesInvariant(k);
    AllPermitted(TaskInit(k), steps)
  }

  ghost function FromBoot(k: Kernel, steps: seq<Step>): (final: Kernel)
    requires AtBoot(k) && PossibleFromBoot(k, steps)
    ensures Invariant(final)
  {
    InitEstablishesInvariant(k);
    Run(TaskInit(k), steps)
  }

  /** In every state a run from boot can reach, exactly the current slot is RUNNING, slot 0 is RUNNING or
      READY, and the halt loop of task_exit has not been entered; the stacks of the slots in use are live
      pages, no two of them the same; a task found corrupted has left; and the counters add up. */
  lemma EveryRunIsSound(k: Kernel, steps: seq<Step>)
    requires AtBoot(k) && PossibleFromBoot(k, steps)
    ensures var f := FromBoot(k, steps);
      var tally := Count(f.tasks);
      && f.current < |f.tasks| && !f.halted
      && (forall i :: 0 <= i < |f.tasks| ==> (f.tasks[i].state == Running <==> i == f.current))
      && f.tasks[0].state in {Ready, Running} && f.tasks[0].stackPage == NULL
      && (forall i: nat :: InUse(f, i) ==> Live(f.alloc, f.tasks[i].stackPage) && f.tasks[i].stackPage !in f.alloc.free)
      && (forall i: nat, j: nat :: InUse(f, i) && InUse(f, j) && i != j ==> f.tasks[i].stackPage != f.tasks[j].stackPage)
      && f.createdTasks == f.reapedTasks + tally.occupied - 1
      && f.exitedTasks == f.reapedTasks + tally.finished
      && f.contextSwitches == f.exitedTasks + Handoffs(f.log) && Handoffs(f.log) <= f.yieldCalls
      && 1 + f.contextSwitches == tally.schedules + f.retiredSchedules
      && f.stackErrors == tally.corrupted <= |f.tasks| - 1
      && (forall i :: 0 <= i < |f.tasks| && f.tasks[i].stackCorrupted ==> f.tasks[i].state == Finished)
  {
    CorruptedBounded(FromBoot(k, steps).tasks);
  }

  // ---- Memory ----

  /** Apart from a client's own store, no step - no link, no zeroing, no canary - touches a word of a page
      that is live before and after it. */
  lemma OnlyStoresTouchLivePages(k: Kernel, step: Step)
    requires Invariant(k) && Permitted(k, step) && !step.StoreWord?
    ensures Untouched(k.alloc, Apply(k, step).alloc)
  {
    match step
    case Create(entry, argument) =>
      CreateTouchesOnlyItsPage(k, entry, argument);
    case Yield =>
      YieldKeepsOwned(k);
    case Exit =>
      if k.current == 0 {
        YieldKeepsOwned(k);
      } else {
        ExitKeepsOwned(k);
      }
    case Reap(task) =>
      ReapTouchesOnlyItsPage(k, task);
    case AllocPage =>
      AllocateIsFresh(k.alloc);
    case FreePage(page) =>
      FreedWordIsDead(k.alloc, page);
    case Compute(_) =>
  }

  lemma CreateTouchesOnlyItsPage(k: Kernel, entry: Word, argument: Word)
    requires Owned(k)
    ensures Untouched(k.alloc, TaskCreate(k, entry, argument).0.alloc)
  {
    CreateIsOccupy(k, entry, argument);
    AllocateIsFresh(k.alloc);
    var (alloc, page) := Allocate(k.alloc);
    if page != NULL {
      PageIndices(page);
      assert PageOf(WordAt(page)) == page;
    }
  }

  // ---- Slots and canaries ----

  /** A slot in use keeps its stack page and what it runs until it is reaped; damage once recorded stays
      recorded, and is recorded only if the canary is wrong. */
  lemma StepKeepsSlot(k: Kernel, step: Step, task: nat)
    requires Invariant(k) && Permitted(k, step) && InUse(k, task)
    ensures (step == Reap(task) && TaskReap(k, task).1) || SlotKept(k, Apply(k, step), task)
  {
    hide Counted, Transparent, Inv;
    match step
    case Create(entry, argument) =>
      CreateIsOccupy(k, entry, argument);
    case Yield =>
      YieldKeepsSlot(k, task);
    case Exit =>
      if k.current == 0 {
        YieldKeepsSlot(k, task);
      } else {
        ExitKeepsSlot(k, task);
      }
    case Reap(_) =>
    case AllocPage =>
    case FreePage(_) =>
    case StoreWord(_, _) =>
    case Compute(_) =>
  }

  ghost predicate SlotKept(k: Kernel, after: Kernel, task: nat)
    requires Shape(k) && InUse(k, task)
  {
    && InUse(after, task)
    && after.tasks[task].stackPage == k.tasks[task].stackPage
    && after.tasks[task].entry == k.tasks[task].entry
    && after.tasks[task].argument == k.tasks[task].argument
    && (k.tasks[task].stackCorrupted ==> after.tasks[task].stackCorrupted)
    && (after.tasks[task].stackCorrupted ==>
          k.tasks[task].stackCorrupted || !StackCanaryOk(k.alloc.memory, k.tasks[task], task))
  }

  lemma ExitKeepsSlot(k: Kernel, task: nat)
    requires Owned(k) && k.current != 0 && InUse(k, task)
    ensures SlotKept(k, ExitCurrent(k), task)
  {
    RecordKeepsOwned(k, k.current);
    LeaveIsDispatch(RecordStackError(k, k.current));
  }

  lemma YieldKeepsSlot(k: Kernel, task: nat)
    requires Owned(k) && InUse(k, task)
    ensures SlotKept(k, TaskYield(k), task)
  {
    hide Inv;
    RecordKeepsOwned(k, k.current);
    var r := RecordStackError(k, k.current);
    if r.tasks[r.current].stackCorrupted && r.current != 0 {
      ExitKeepsSlot(r, task);
    } else {
      GiveWayIsDispatch(r);
    }
  }

  /** A slot marked corrupted is never reaped, reused or freed: its page stays live and its own for ever. And
      its task, which task_yield sent away, never runs again. */
  lemma {:induction false} CorruptionIsForever(k: Kernel, steps: seq<Step>, task: nat)
    requires Invariant(k) && AllPermitted(k, steps) && InUse(k, task) && k.tasks[task].stackCorrupted
    ensures var final := Run(k, steps);
      && InUse(final, task) && final.tasks[task].stackCorrupted
      && final.tasks[task].state == Finished && final.current != task
      && final.tasks[task].stackPage == k.tasks[task].stackPage
      && Live(final.alloc, k.tasks[task].stackPage)
    decreases |steps|
  {
    if steps != [] {
      StepKeepsInvariant(k, steps[0]);
      ReapSucceeds(k, task);
      StepKeepsSlot(k, steps[0], task);
      CorruptionIsForever(Apply(k, steps[0]), steps[1..], task);
    }
  }

  /** Only a task's own store breaks a canary: through any run in which nobody writes that word and the
      slot is not reaped, the canary stays right and no error is recorded. */
  lemma {:induction false} CanaryPersists(k: Kernel, steps: seq<Step>, task: nat)
    requires Invariant(k) && AllPermitted(k, steps) && InUse(k, task)
    requires !k.tasks[task].stackCorrupted && StackCanaryOk(k.alloc.memory, k.tasks[task], task)
    requires forall s :: s in steps ==>
      s != Reap(task) && !(s.StoreWord? && s.index == WordAt(k.tasks[task].stackPage))
    ensures var final := Run(k, steps);
      && InUse(final, task) && !final.tasks[task].stackCorrupted
      && final.tasks[task].stackPage == k.tasks[task].stackPage
      && StackCanaryOk(final.alloc.memory, final.tasks[task], task)
    decreases |steps|
  {
    if steps != [] {
      StepKeepsInvariant(k, steps[0]);
      StepKeepsSlot(k, steps[0], task);
      StepKeepsCanaryWord(k, steps[0], task);
      assert forall s :: s in steps[1..] ==> s in steps;
      CanaryPersists(Apply(k, steps[0]), steps[1..], task);
    }
  }

  lemma StepKeepsCanaryWord(k: Kernel, step: Step, task: nat)
    requires Invariant(k) && Permitted(k, step) && InUse(k, task) && IsPage(k.tasks[task].stackPage)
    requires step != Reap(task) && !(step.StoreWord? && step.index == WordAt(k.tasks[task].stackPage))
    ensures Invariant(Apply(k, step))
    ensures Apply(k, step).alloc.memory[WordAt(k.tasks[task].stackPage)]
         == k.alloc.memory[WordAt(k.tasks[task].stackPage)]
  {
    var page := k.tasks[task].stackPage;
    StepKeepsInvariant(k, step);
    PageIndices(page);
    assert PageOf(WordAt(page)) == page;
    StepKeepsSlot(k, step, task);
    if !step.StoreWord? {
      OnlyStoresTouchLivePages(k, step);
    }
  }

  // ---- Contexts ----

  ghost predicate About(e: Event, task: nat) {
    (e.Created? && e.task == task) || (e.Switched? && e.from == task)
  }

  /** LastSeen is the latest event about the task. */
  lemma {:induction false} LatestEvent(log: seq<Event>, task: nat) returns (j: nat)
    requires LastSeen(log, task) != Unknown
    ensures j < |log| && About(log[j], task) && LastSeen(log, task) == NowSeen(log[j], task, Unknown)
    ensures forall m :: j < m < |log| ==> !About(log[m], task)
  {
    var last := |log| - 1;
    if About(log[last], task) {
      j := last;
    } else {
      j := LatestEvent(log[..last], task);
    }
  }

  /** Context transparency: at every context switch of every run, the incoming task was last heard of when
      it was switched out - not when it left - and gets back exactly the registers it had then, or when it
      was created, and starts in task_bootstrap with SP at the top of its page. */
  lemma ResumedUnchanged(k: Kernel, steps: seq<Step>, i: nat) returns (j: nat)
    requires Invariant(k) && AllPermitted(k, steps)
    requires i < |Run(k, steps).log| && Run(k, steps).log[i].Switched?
    ensures var log, task := Run(k, steps).log, Run(k, steps).log[i].to;
      && j < i && (forall m :: j < m < i ==> !About(log[m], task))
      && (if log[j].Created? then
            log[j].task == task && log[i].loaded == FirstContext(log[j].page, Run(k, steps).bootstrap)
          else
            log[j].from == task && !log[j].exiting && log[i].loaded == log[j].saved)
  {
    hide Counted, OwnedSlots, Inv;
    var log := Run(k, steps).log;
    j := LatestEvent(log[..i], log[i].to);
  }

  // ---- Contexts, by the state of the machine ----

  /** All the way through the run, up to its last step, some other task is running. */
  ghost predicate Away(k: Kernel, steps: seq<Step>, task: nat)
    requires Invariant(k) && AllPermitted(k, steps)
    decreases |steps|
  {
    steps != [] ==>
      k.current != task && (StepKeepsInvariant(k, steps[0]); Away(Apply(k, steps[0]), steps[1..], task))
  }

  /** The task still waits as it did before; or it runs, and the CPU has the registers it was waiting with. */
  ghost predicate WaitsOrResumes(waiting: Slot, k: Kernel, task: nat) {
    && task < |k.tasks|
    && k.tasks[task].entry == waiting.entry && k.tasks[task].argument == waiting.argument
    && k.tasks[task].stackPage == waiting.stackPage && k.tasks[task].context == waiting.context
    && if k.current == task then k.cpu == waiting.context else k.tasks[task].state == Ready
  }

  lemma HandOverResumes(k: Kernel, after: Kernel, left: TaskState, task: nat)
    requires Owned(k) && task < |k.tasks| && k.tasks[task].state == Ready
    requires HandedOver(k, after, left) && after.bootstrap == k.bootstrap
    ensures WaitsOrResumes(k.tasks[task], after, task) && after.bootstrap == k.bootstrap
  {
    hide Inv;
  }

  lemma YieldResumes(k: Kernel, task: nat)
    requires Owned(k) && task < |k.tasks| && k.tasks[task].state == Ready
    ensures forall after :: after in {TaskYield(k), TaskExit(k)} ==>
      WaitsOrResumes(k.tasks[task], after, task) && after.bootstrap == k.bootstrap
  {
    hide Inv, TaskYield, TaskExit, HandedOver;
    YieldOutcome(k);
    ExitOutcome(k);
    var y, e := TaskYield(k), TaskExit(k);
    if Broken(k, k.current) {
      HandOverResumes(k, y, Finished, task);
    } else {
      HandOverResumes(k, y, Ready, task);
    }
    if k.current != 0 {
      HandOverResumes(k, e, Finished, task);
    }
  }

  lemma StepResumes(k: Kernel, step: Step, task: nat)
    requires Owned(k) && Permitted(k, step) && task < |k.tasks| && k.tasks[task].state == Ready
    ensures WaitsOrResumes(k.tasks[task], Apply(k, step), task) && Apply(k, step).bootstrap == k.bootstrap
  {
    hide Inv, TaskYield, TaskExit, TaskCreate, TaskReap, HandedOver;
    match step
    case Yield => YieldResumes(k, task);
    case Exit => YieldResumes(k, task);
    case Create(entry, argument) => CreateOutcome(k, entry, argument);
    case Reap(other) => ReapOutcome(k, other);
    case _ =>
  }

  lemma {:induction false} RunResumes(k: Kernel, steps: seq<Step>, task: nat)
    requires Invariant(k) && AllPermitted(k, steps) && Away(k, steps, task)
    requires task < |k.tasks| && k.tasks[task].state == Ready
    ensures WaitsOrResumes(k.tasks[task], Run(k, steps), task) && Run(k, steps).bootstrap == k.bootstrap
    decreases |steps|
  {
    hide Apply, Counted, Transparent, Inv;
    ReadyIsNotCurrent(k, task);
    if steps != [] {
      StepKeepsInvariant(k, steps[0]);
      StepResumes(k, steps[0], task);
      if Apply(k, steps[0]).current != task {
        RunResumes(Apply(k, steps[0]), steps[1..], task);
      }
    }
  }

  lemma ReadyIsNotCurrent(k: Kernel, task: nat)
    requires Owned(k) && task < |k.tasks| && k.tasks[task].state == Ready
    ensures k.current != task
  {
  }

  /** A task that gives up the CPU and stays READY has, when it next runs, exactly the registers it gave it up
      with, whatever the others did in between. */
  lemma ComesBackUnchanged(k: Kernel, steps: seq<Step>)
    requires Invariant(k) && steps != [] && AllPermitted(k, steps)
    ensures Invariant(Apply(k, steps[0]))
    ensures var left := Apply(k, steps[0]);
      && left.current != k.current
      && |left.tasks| == |k.tasks| && left.tasks[k.current].state == Ready
      && Away(left, steps[1..], k.current) && Run(k, steps).current == k.current
      ==> Run(k, steps).cpu == k.cpu
  {
    hide Inv, Counted, Transparent, TaskYield, TaskExit, TaskCreate, TaskReap;
    StepKeepsInvariant(k, steps[0]);
    var left := Apply(k, steps[0]);
    if left.current != k.current && |left.tasks| == |k.tasks| && left.tasks[k.current].state == Ready &&
       Away(left, steps[1..], k.current) {
      LeavingSavesRegisters(k, steps[0]);
      RunResumes(left, steps[1..], k.current);
    }
  }

  lemma LeavingSavesRegisters(k: Kernel, step: Step)
    requires Owned(k) && Permitted(k, step) && Apply(k, step).current != k.current
    ensures |Apply(k, step).tasks| == |k.tasks| && Apply(k, step).tasks[k.current].context == k.cpu
  {
    hide Inv, TaskYield, TaskExit, TaskCreate, TaskReap;
    YieldOutcome(k);
    ExitOutcome(k);
    match step
    case Create(entry, argument) => CreateOutcome(k, entry, argument);
    case Reap(other) => ReapOutcome(k, other);
    case _ =>
  }

  /** A new task, when it first runs, is in task_bootstrap with SP at the top of its page, and its slot has the
      entry function and argument it was created with for task_bootstrap to find. */
  lemma StartsAsCreated(k: Kernel, steps: seq<Step>)
    requires Invariant(k) && steps != [] && AllPermitted(k, steps) && steps[0].Create?
    ensures Invariant(Apply(k, steps[0]))
    ensures var (created, task) := TaskCreate(k, steps[0].entry, steps[0].argument);
      var final := Run(k, steps);
      task != TASK_ID_INVALID && Away(created, steps[1..], task) && final.current == task ==>
        && final.current < |final.tasks| && Live(final.alloc, final.tasks[final.current].stackPage)
        && final.cpu.x30 == k.bootstrap
        && final.cpu.sp == final.tasks[final.current].stackPage + PAGE_SIZE
        && final.tasks[final.current].entry == steps[0].entry
        && final.tasks[final.current].argument == steps[0].argument
  {
    hide Inv, Counted, Transparent, TaskCreate;
    StepKeepsInvariant(k, steps[0]);
    var (created, task) := TaskCreate(k, steps[0].entry, steps[0].argument);
    CreateOutcome(k, steps[0].entry, steps[0].argument);
    if task != TASK_ID_INVALID && Away(created, steps[1..], task) && Run(k, steps).current == task {
      RunResumes(created, steps[1..], task);
      StackIsLive(Run(k, steps), task);
    }
  }

  lemma StepKeepsFinished(k: Kernel, step: Step, task: nat)
    requires Owned(k) && Permitted(k, step) && task < |k.tasks| && k.tasks[task].state == Finished
    requires step != Reap(task)
    ensures task < |Apply(k, step).tasks| && Apply(k, step).tasks[task].state == Finished
  {
    hide Inv, TaskYield, TaskExit, TaskCreate, TaskReap;
    YieldOutcome(k);
    ExitOutcome(k);
    match step
    case Create(entry, argument) => CreateOutcome(k, entry, argument);
    case Reap(other) => ReapOutcome(k, other);
    case _ =>
  }

  /** A task that has left never runs again: its slot stays FINISHED through any run until it is reaped. */
  lemma {:induction false} FinishedNeverRuns(k: Kernel, steps: seq<Step>, task: nat)
    requires Invariant(k) && AllPermitted(k, steps) && task < |k.tasks| && k.tasks[task].state == Finished
    requires forall s :: s in steps ==> s != Reap(task)
    ensures var final := Run(k, steps);
      task < |final.tasks| && final.tasks[task].state == Finished && final.current != task
    decreases |steps|
  {
    hide Apply, Counted, Transparent, Inv;
    if steps != [] {
      assert steps[0] in steps;
      StepKeepsInvariant(k, steps[0]);
      StepKeepsFinished(k, steps[0], task);
      assert forall s :: s in steps[1..] ==> s in steps;
      FinishedNeverRuns(Apply(k, steps[0]), steps[1..], task);
    }
  }

  // ---- First runs ----

  lemma {:induction false} FreshIsBorn(log: seq<Event>, task: nat)
    ensures LastSeen(log, task).Fresh? ==> LastSeen(log, task).page == BornWith(log, task).0
  {
    if log != [] {
      FreshIsBorn(log[..|log| - 1], task);
    }
  }

  /** A READY task that has not run yet will start in task_bootstrap at the top of its own page, and
      task_bootstrap will find the entry function and argument it was created with. */
  lemma FirstRunIsBootstrap(k: Kernel, task: nat)
    requires Invariant(k) && InUse(k, task) && k.tasks[task].state == Ready && LastSeen(k.log, task).Fresh?
    ensures var slot := k.tasks[task];
      && slot.context.x30 == k.bootstrap && slot.context.sp == slot.stackPage + PAGE_SIZE
      && BornWith(k.log, task) == (slot.stackPage, slot.entry, slot.argument)
  {
    FreshIsBorn(k.log, task);
    LiveIsPage(k.alloc, k.tasks[task].stackPage);
  }

  // ---- Waiting ----

  /** Every switch that passes a READY task by brings its turn nearer. */
  lemma DispatchComesNearer(k: Kernel, task: nat)
    requires Owned(k) && task < |k.tasks| && k.tasks[task].state == Ready
    ensures var next := FindNextReady(k.tasks, k.current);
      && next < |k.tasks| && next != k.current
      && Distance(|k.tasks|, k.current, task) >= 1
      && (next != task ==>
            1 <= Distance(|k.tasks|, next, task) < Distance(|k.tasks|, k.current, task))
  {
    FindReadyIsNearest(k.tasks, k.current, 1);
  }

  ghost predicate Served(k: Kernel, after: Kernel, task: nat)
    requires Shape(k) && Shape(after) && |after.tasks| == |k.tasks| && task < |k.tasks|
  {
    if after.contextSwitches == k.contextSwitches then
      after.current == k.current && after.tasks[task].state == Ready
    else
      && after.contextSwitches == k.contextSwitches + 1
      && (after.current == task ||
          (after.tasks[task].state == Ready &&
           Distance(|k.tasks|, after.current, task) < Distance(|k.tasks|, k.current, task)))
  }

  lemma ExitServes(k: Kernel, task: nat)
    requires Owned(k) && k.current != 0 && task < |k.tasks| && k.tasks[task].state == Ready
    ensures Owned(ExitCurrent(k)) && |ExitCurrent(k).tasks| == |k.tasks| && Served(k, ExitCurrent(k), task)
  {
    ExitKeepsOwned(k);
    RecordKeepsOwned(k, k.current);
    LeaveIsDispatch(RecordStackError(k, k.current));
    DispatchComesNearer(RecordStackError(k, k.current), task);
  }

  lemma YieldServes(k: Kernel, task: nat)
    requires Owned(k) && task < |k.tasks| && k.tasks[task].state == Ready
    ensures Owned(TaskYield(k)) && |TaskYield(k).tasks| == |k.tasks| && Served(k, TaskYield(k), task)
  {
    YieldKeepsOwned(k);
    RecordKeepsOwned(k, k.current);
    var r := RecordStackError(k, k.current);
    if r.tasks[r.current].stackCorrupted && r.current != 0 {
      ExitServes(r, task);
    } else {
      GiveWayIsDispatch(r);
      DispatchComesNearer(r, task);
    }
  }

  lemma QuietStepServes(k: Kernel, step: Step, task: nat)
    requires Owned(k) && Permitted(k, step) && task < |k.tasks| && k.tasks[task].state == Ready
    requires !step.Yield? && !step.Exit?
    ensures var after := Apply(k, step);
      && |after.tasks| == |k.tasks| && after.current == k.current
      && after.contextSwitches == k.contextSwitches && after.tasks[task].state == Ready
  {
    if step.Create? {
      CreateIsOccupy(k, step.entry, step.argument);
    }
  }

  lemma StepServes(k: Kernel, step: Step, task: nat)
    requires Invariant(k) && Permitted(k, step) && task < |k.tasks| && k.tasks[task].state == Ready
    ensures Invariant(Apply(k, step)) && |Apply(k, step).tasks| == |k.tasks| && Served(k, Apply(k, step), task)
  {
    StepKeepsInvariant(k, step);
    if step.Yield? || (step.Exit? && k.current == 0) {
      YieldServes(k, task);
    } else if step.Exit? {
      ExitServes(k, task);
    } else {
      QuietStepServes(k, step, task);
    }
  }

  /** After that many steps of the run, the task is the one running, within so many switches. */
  ghost predicate GetsTurn(k: Kernel, steps: seq<Step>, task: nat, switches: nat, turn: nat)
    requires Invariant(k)
  {
    && turn <= |steps| && AllPermitted(k, steps[..turn])
    && Run(k, steps[..turn]).current == task
    && Run(k, steps[..turn]).contextSwitches <= k.contextSwitches + switches
  }

  lemma GetsTurnLater(k: Kernel, steps: seq<Step>, task: nat, switches: nat, later: nat, left: nat)
    requires Invariant(k) && steps != [] && Permitted(k, steps[0])
    requires Invariant(Apply(k, steps[0])) && GetsTurn(Apply(k, steps[0]), steps[1..], task, left, later)
    requires Apply(k, steps[0]).contextSwitches + left <= k.contextSwitches + switches
    ensures GetsTurn(k, steps, task, switches, later + 1)
  {
    assert steps[..later + 1][1..] == steps[1..][..later];
  }

  lemma TurnIsNow(k: Kernel, steps: seq<Step>, task: nat)
    requires Invariant(k) && k.current == task
    ensures GetsTurn(k, steps, task, 0, 0)
  {
    assert steps[..0] == [];
  }

  /** The first step of such a run: either it is the task's turn, or the rest of the run is long enough. */
  lemma WaitingStep(k: Kernel, steps: seq<Step>, task: nat)
    requires Invariant(k) && AllPermitted(k, steps) && task < |k.tasks| && k.tasks[task].state == Ready
    requires Run(k, steps).contextSwitches >= k.contextSwitches + Distance(|k.tasks|, k.current, task)
    ensures steps != [] && Invariant(Apply(k, steps[0]))
    ensures var after := Apply(k, steps[0]);
      && |after.tasks| == |k.tasks|
      && AllPermitted(after, steps[1..]) && Run(k, steps) == Run(after, steps[1..])
      && after.contextSwitches <= k.contextSwitches + Distance(|k.tasks|, k.current, task)
      && (after.current == task ||
          (after.tasks[task].state == Ready &&
           Distance(|k.tasks|, after.current, task) + after.contextSwitches
             <= Distance(|k.tasks|, k.current, task) + k.contextSwitches))
  {
    DispatchComesNearer(k, task);
    StepServes(k, steps[0], task);
  }

  /** Bounded waiting: in any run with as many context switches as a READY task is places away from the
      current one - at most one fewer than there are slots - that task gets to run, within that many
      switches, whatever the others do. */
  lemma {:induction false} BoundedWaiting(k: Kernel, steps: seq<Step>, task: nat) returns (turn: nat)
    requires Invariant(k) && AllPermitted(k, steps) && task < |k.tasks| && k.tasks[task].state == Ready
    requires Run(k, steps).contextSwitches >= k.contextSwitches + Distance(|k.tasks|, k.current, task)
    ensures Distance(|k.tasks|, k.current, task) <= |k.tasks| - 1
    ensures GetsTurn(k, steps, task, Distance(|k.tasks|, k.current, task), turn)
    decreases |steps|
  {
    hide Counted, Transparent, Inv;
    WaitingStep(k, steps, task);
    var after, switches := Apply(k, steps[0]), Distance(|k.tasks|, k.current, task);
    var left, later := 0, 0;
    if after.current == task {
      TurnIsNow(after, steps[1..], task);
    } else {
      left := Distance(|k.tasks|, after.current, task);
      later := BoundedWaiting(after, steps[1..], task);
    }
    GetsTurnLater(k, steps, task, switches, later, left);
    turn := later + 1;
  }
}
