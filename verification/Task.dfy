/**
 The cooperative scheduler over the page allocator, as a function of the whole kernel state: task slots,
 counters, RAM, and the callee-saved registers of the one CPU. `log` and `retiredSchedules` are history:
 nothing the kernel does depends on them.
 */
module Task {
  import opened Bits
  import opened PageAlloc

  const TASK_STACK_CANARY: Word := 0x7461_736b_7374_616b
  const TASK_ID_INVALID: nat := 0xffff_ffff

  /** The registers a called function must preserve (section 6.1.1 of AAPCS64), the link register and SP. */
  datatype Registers = Registers(
    x19: Word, x20: Word, x21: Word, x22: Word, x23: Word, x24: Word, x25: Word,
    x26: Word, x27: Word, x28: Word, x29: Word, x30: Word, sp: Word)

  datatype TaskState = Unused | Ready | Running | Finished

  datatype Slot = Slot(
    context: Registers,
    entry: Word,
    argument: Word,
    stackPage: Word,
    state: TaskState,
    stackCorrupted: bool,
    scheduleCount: nat)

  const NO_CONTEXT := Registers(0, 0, 0, 0, 0, 0, 0, 0, 0, 0, 0, 0, 0)
  const CLEARED := Slot(NO_CONTEXT, NULL, NULL, NULL, Unused, false, 0)

  datatype Event =
    | Created(task: nat, page: Word, entry: Word, argument: Word)
    | Switched(from: nat, to: nat, saved: Registers, loaded: Registers, exiting: bool)

  datatype Kernel = Kernel(
    alloc: Allocator,
    tasks: seq<Slot>,
    current: nat,
    createdTasks: nat,
    contextSwitches: nat,
    yieldCalls: nat,
    exitedTasks: nat,
    reapedTasks: nat,
    stackErrors: nat,
    initialized: bool,
    bootstrap: Word,
    cpu: Registers,
    halted: bool,
    log: seq<Event>,
    retiredSchedules: nat)

  /** What every state has, whatever happened: slots in range, and stacks that are page frames of RAM. */
  ghost predicate Shape(k: Kernel) {
    ShapeOf(k.alloc, k.tasks, k.current)
  }

  ghost predicate ShapeOf(alloc: Allocator, tasks: seq<Slot>, current: nat) {
    && Inv(alloc)
    && current < |tasks| <= 0x8000_0000
    && (forall i :: 0 <= i < |tasks| ==> tasks[i].stackPage == NULL || IsPage(tasks[i].stackPage))
  }

  // ---- Stack canaries ----

  function StackCanary(task: nat): Word
    requires task < TWO_32
  {
    Xor(TASK_STACK_CANARY, task)
  }

  /** No two slots share a canary, so a stale one is never mistaken for the right one. */
  lemma CanariesDiffer(s: nat, t: nat)
    requires s < TWO_32 && t < TWO_32 && s != t
    ensures StackCanary(s) != StackCanary(t)
  {
    XorCommutes(TASK_STACK_CANARY, s);
    XorCommutes(TASK_STACK_CANARY, t);
    XorInvolutive(s, TASK_STACK_CANARY);
    XorInvolutive(t, TASK_STACK_CANARY);
  }

  predicate StackCanaryOk(memory: seq<Word>, slot: Slot, task: nat)
    requires |memory| == RAM_WORDS && task < TWO_32 && (slot.stackPage == NULL || IsPage(slot.stackPage))
  {
    slot.stackPage == NULL || memory[WordAt(slot.stackPage)] == StackCanary(task)
  }

  function RecordStackError(k: Kernel, task: nat): Kernel
    requires Shape(k) && task < |k.tasks|
  {
    if !k.tasks[task].stackCorrupted && !StackCanaryOk(k.alloc.memory, k.tasks[task], task) then
      k.(tasks := k.tasks[task := k.tasks[task].(stackCorrupted := true)], stackErrors := k.stackErrors + 1)
    else k
  }

  // ---- Round robin ----

  /** The slot `distance` places after `task` on the ring of n slots. */
  function Around(n: nat, task: nat, distance: nat): nat
    requires task < n && distance <= n
  {
    if task + distance < n then task + distance else task + distance - n
  }

  function Distance(n: nat, from: nat, to: nat): nat
    requires from < n && to < n
  {
    if from <= to then to - from else to + n - from
  }

  /** The first READY slot at the given distance from current or further; current itself is not considered. */
  function FindReady(tasks: seq<Slot>, current: nat, distance: nat): nat
    requires current < |tasks| && 1 <= distance <= |tasks|
    decreases |tasks| - distance
  {
    if distance == |tasks| then TASK_ID_INVALID
    else if tasks[Around(|tasks|, current, distance)].state == Ready then Around(|tasks|, current, distance)
    else FindReady(tasks, current, distance + 1)
  }

  function FindNextReady(tasks: seq<Slot>, current: nat): nat
    requires current < |tasks|
  {
    FindReady(tasks, current, 1)
  }

  lemma {:induction false} FindReadyIsNearest(tasks: seq<Slot>, current: nat, distance: nat)
    requires current < |tasks| <= 0x8000_0000 && 1 <= distance <= |tasks|
    ensures var next := FindReady(tasks, current, distance);
      if next == TASK_ID_INVALID then
        forall t :: 0 <= t < |tasks| && Distance(|tasks|, current, t) >= distance ==> tasks[t].state != Ready
      else
        && next < |tasks| && tasks[next].state == Ready && next != current
        && Distance(|tasks|, current, next) >= distance
        && (forall t :: 0 <= t < |tasks| && tasks[t].state == Ready && distance <= Distance(|tasks|, current, t)
              ==> Distance(|tasks|, current, next) <= Distance(|tasks|, current, t))
    decreases |tasks| - distance
  {
    if distance < |tasks| && tasks[Around(|tasks|, current, distance)].state != Ready {
      FindReadyIsNearest(tasks, current, distance + 1);
    }
  }

  // ---- The machine's context switch ----

  /** The context a new task is given: SP at the top of its page, and a return into task_bootstrap. */
  function FirstContext(page: Word, bootstrap: Word): Registers {
    NO_CONTEXT.(sp := Wrap64(page + PAGE_SIZE), x30 := bootstrap)
  }

  function ContextSwitch(k: Kernel, previous: nat, next: nat, exiting: bool): Kernel
    requires previous < |k.tasks| && next < |k.tasks| && previous != next
  {
    k.(tasks := k.tasks[previous := k.tasks[previous].(context := k.cpu)],
       cpu := k.tasks[next].context,
       log := k.log + [Switched(previous, next, k.cpu, k.tasks[next].context, exiting)])
  }

  /** The bookkeeping of a switch: the current task left in the state given, the next one running. */
  function Chosen(k: Kernel, left: TaskState, next: nat): Kernel
    requires k.current < |k.tasks| && next < |k.tasks|
  {
    var chosen := k.tasks[next];
    k.(tasks := k.tasks[k.current := k.tasks[k.current].(state := left)]
                       [next := chosen.(state := Running, scheduleCount := chosen.scheduleCount + 1)],
       current := next,
       contextSwitches := k.contextSwitches + 1)
  }

  /** The current task hands the CPU to next. */
  function Dispatch(k: Kernel, left: TaskState, next: nat): Kernel
    requires k.current < |k.tasks| && next < |k.tasks| && next != k.current
  {
    ContextSwitch(Chosen(k, left, next), k.current, next, left == Finished)
  }

  /** Two slots change: the one left behind and the one chosen. */
  lemma DispatchSlots(k: Kernel, left: TaskState, next: nat)
    requires k.current < |k.tasks| && next < |k.tasks| && next != k.current
    ensures Dispatch(k, left, next).tasks ==
      k.tasks[k.current := k.tasks[k.current].(state := left, context := k.cpu)]
             [next := k.tasks[next].(state := Running, scheduleCount := k.tasks[next].scheduleCount + 1)]
  {
  }

  /** Marking the current slot early makes no difference to the switch. */
  lemma MarkTwice(k: Kernel, left: TaskState, next: nat)
    requires k.current < |k.tasks| && next < |k.tasks| && next != k.current
    ensures Dispatch(k.(tasks := k.tasks[k.current := k.tasks[k.current].(state := left)]), left, next)
         == Dispatch(k, left, next)
  {
    var marked := k.tasks[k.current := k.tasks[k.current].(state := left)];
    assert marked[k.current := marked[k.current].(state := left)] == marked;
  }

  // ---- The operations ----

  function TaskInit(k: Kernel): Kernel
    requires 1 <= |k.tasks|
  {
    if k.initialized then k
    else
      k.(tasks := seq(|k.tasks|, i => if i == 0 then CLEARED.(state := Running, scheduleCount := 1) else CLEARED),
         current := 0, createdTasks := 0, contextSwitches := 0, yieldCalls := 0, exitedTasks := 0,
         reapedTasks := 0, stackErrors := 0, initialized := true)
  }

  /** The first UNUSED slot from task on, or the number of slots. */
  function FirstUnused(tasks: seq<Slot>, task: nat): (first: nat)
    requires task <= |tasks|
    ensures task <= first <= |tasks|
    ensures first < |tasks| ==> tasks[first].state == Unused
    ensures forall t :: task <= t < first ==> tasks[t].state != Unused
    decreases |tasks| - task
  {
    if task == |tasks| || tasks[task].state == Unused then task else FirstUnused(tasks, task + 1)
  }

  function TaskCreate(k: Kernel, entry: Word, argument: Word): (Kernel, nat)
    requires Shape(k)
  {
    if !k.initialized || entry == NULL then (k, TASK_ID_INVALID)
    else
      var task := FirstUnused(k.tasks, 1);
      if task == |k.tasks| then (k, TASK_ID_INVALID)
      else
        var (alloc, page) := Allocate(k.alloc);
        if page == NULL then (k.(alloc := alloc), TASK_ID_INVALID)
        else (Occupy(k.(alloc := alloc), task, page, entry, argument), task)
  }

  function Occupy(k: Kernel, task: nat, page: Word, entry: Word, argument: Word): Kernel
    requires 1 <= task < |k.tasks| <= 0x8000_0000 && |k.alloc.memory| == RAM_WORDS && IsPage(page)
  {
    k.(tasks := k.tasks[task := CLEARED.(entry := entry, argument := argument, stackPage := page, state := Ready,
                                         context := FirstContext(page, k.bootstrap))],
       alloc := Store(k.alloc, WordAt(page), StackCanary(task)),
       createdTasks := k.createdTasks + 1,
       log := k.log + [Created(task, page, entry, argument)])
  }

  function TaskYield(k: Kernel): Kernel
    requires Shape(k)
  {
    if !k.initialized then k
    else
      var k := RecordStackError(k, k.current);
      if k.tasks[k.current].stackCorrupted && k.current != 0 then ExitCurrent(k) else GiveWay(k)
  }

  function GiveWay(k: Kernel): Kernel
    requires Shape(k)
  {
    var k := k.(yieldCalls := k.yieldCalls + 1);
    var next := FindNextReady(k.tasks, k.current);
    FindReadyIsNearest(k.tasks, k.current, 1);
    if next == TASK_ID_INVALID then k
    else Dispatch(k.(tasks := k.tasks[k.current := k.tasks[k.current].(state := Ready)]), Ready, next)
  }

  /** One turn of task_exit: slot 0 never leaves, it goes on yielding; any other task leaves for good. */
  function TaskExit(k: Kernel): Kernel
    requires Shape(k)
  {
    if !k.initialized || k.current == 0 then TaskYield(k) else ExitCurrent(k)
  }

  function ExitCurrent(k: Kernel): Kernel
    requires Shape(k)
  {
    Leave(RecordStackError(k, k.current))
  }

  function Leave(k: Kernel): Kernel
    requires Shape(k)
  {
    var k := k.(tasks := k.tasks[k.current := k.tasks[k.current].(state := Finished)],
                exitedTasks := k.exitedTasks + 1);
    var next := FindNextReady(k.tasks, k.current);
    FindReadyIsNearest(k.tasks, k.current, 1);
    if next == TASK_ID_INVALID then k.(halted := true) else Dispatch(k, Finished, next)
  }

  function TaskReap(k: Kernel, task: nat): (Kernel, bool)
    requires Shape(k)
  {
    if !k.initialized || k.current != 0 || task >= |k.tasks| || task == k.current then (k, false)
    else if k.tasks[task].state != Finished || k.tasks[task].stackPage == NULL then (k, false)
    else
      var k := RecordStackError(k, task);
      if k.tasks[task].stackCorrupted then (k, false)
      else
        var (alloc, freed) := Release(k.alloc, k.tasks[task].stackPage);
        if !freed then (k.(alloc := alloc), false)
        else (Vacate(k, task, alloc), true)
  }

  function Vacate(k: Kernel, task: nat, alloc: Allocator): Kernel
    requires task < |k.tasks|
  {
    k.(alloc := alloc,
       tasks := k.tasks[task := CLEARED],
       reapedTasks := k.reapedTasks + 1,
       retiredSchedules := k.retiredSchedules + k.tasks[task].scheduleCount)
  }
}
