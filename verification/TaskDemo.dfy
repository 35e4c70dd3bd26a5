/**
 The taskdemo shell command: two workers and the shell, run turn by turn on the scheduler. A turn is what
 one task does from being scheduled until it yields or leaves.
 */
module TaskDemo {
  import opened Bits
  import opened PageAlloc
  import opened Task
  import opened TaskOwnership

  /** WithoutB: worker B could not be created, and the shell waits to clean up after A. */
  datatype Outcome = InProgress | WithoutB | Passed | Failed | NoTaskA | NoTaskB

  /** The workers' round counters live in their own frames, and what they run as is in the two arguments they
      are given: the one prints A, the other B. output holds the lines printed so far. */
  datatype Demo = Demo(
    kernel: Kernel,
    worker: Word,
    argumentA: Word,
    argumentB: Word,
    first: nat,
    second: nat,
    rounds: nat,
    roundA: nat,
    roundB: nat,
    output: seq<(char, nat)>,
    outcome: Outcome)

  function IsFinished(k: Kernel, task: nat): bool {
    task < |k.tasks| && k.tasks[task].state == Finished
  }

  /** The rest of the shell's loop up to its next yield, or its end. */
  function MainTurn(d: Demo): Demo
    requires Owned(d.kernel)
  {
    if d.outcome == WithoutB then
      if !IsFinished(d.kernel, d.first) then d.(kernel := TaskYield(d.kernel))
      else
        var (after, reaped) := TaskReap(d.kernel, d.first);
        d.(kernel := after, outcome := if reaped then NoTaskB else Failed)
    else if !(IsFinished(d.kernel, d.first) && IsFinished(d.kernel, d.second)) then
      d.(kernel := TaskYield(d.kernel))
    else
      var (once, firstReaped) := TaskReap(d.kernel, d.first);
      ReapKeepsOwned(d.kernel, d.first);
      var (twice, secondReaped) := TaskReap(once, d.second);
      d.(kernel := twice, outcome := if firstReaped && secondReaped then Passed else Failed)
  }

  /** A worker that has printed `round` lines so far prints the next one and yields, or after its last
      one returns, so that task_bootstrap makes it leave. */
  function WorkerTurn(k: Kernel, rounds: nat, round: nat): Kernel
    requires Owned(k)
  {
    if round + 1 < rounds then TaskYield(k) else TaskExit(k)
  }

  /** The running worker is the function its slot was created with, and goes by the argument found there. */
  function Turn(d: Demo): Demo
    requires Owned(d.kernel) && d.rounds >= 1
  {
    var slot := d.kernel.tasks[d.kernel.current];
    if d.outcome != InProgress && d.outcome != WithoutB then d
    else if d.kernel.current == 0 then MainTurn(d)
    else if slot.entry != d.worker then d
    else if slot.argument == d.argumentA then
      d.(roundA := d.roundA + 1, output := d.output + [('A', d.roundA + 1)],
         kernel := WorkerTurn(d.kernel, d.rounds, d.roundA))
    else if slot.argument == d.argumentB then
      d.(roundB := d.roundB + 1, output := d.output + [('B', d.roundB + 1)],
         kernel := WorkerTurn(d.kernel, d.rounds, d.roundB))
    else d
  }

  lemma TurnKeepsOwned(d: Demo)
    requires Owned(d.kernel) && d.rounds >= 1
    ensures Owned(Turn(d).kernel) && Turn(d).rounds == d.rounds
  {
    hide Inv, TaskYield, TaskExit, TaskReap;
    YieldKeepsOwned(d.kernel);
    TaskExitKeepsOwned(d.kernel);
    ReapKeepsOwned(d.kernel, d.first);
    ReapKeepsOwned(TaskReap(d.kernel, d.first).0, d.second);
  }

  ghost function Turns(d: Demo, n: nat): (last: Demo)
    requires Owned(d.kernel) && d.rounds >= 1
    ensures Owned(last.kernel) && last.rounds == d.rounds
  {
    if n == 0 then d
    else
      var before := Turns(d, n - 1);
      TurnKeepsOwned(before);
      Turn(before)
  }

  // ---- With B or without ----

  function Alone(d: Demo): bool {
    d.second == TASK_ID_INVALID
  }

  function LastWorker(d: Demo): nat {
    if Alone(d) then d.first else d.second
  }

  /** n for every worker there is. */
  function Each(alone: bool, n: nat): nat {
    if alone then n else 2 * n
  }

  /** A 1, B 1, A 2, B 2, ... - or A 1, A 2, ... */
  function Lines(alone: bool, rounds: nat): seq<(char, nat)> {
    if rounds == 0 then []
    else Lines(alone, rounds - 1) + [('A', rounds)] + (if alone then [] else [('B', rounds)])
  }

  // ---- One kernel state of the demo ----

  /** Slot t has a sound stack. */
  predicate Sound(k: Kernel, task: nat) {
    && 1 <= task < |k.tasks| <= 0x8000_0000 && |k.alloc.memory| == RAM_WORDS
    && !k.tasks[task].stackCorrupted && IsPage(k.tasks[task].stackPage)
    && StackCanaryOk(k.alloc.memory, k.tasks[task], task)
  }

  /** The scheduler between turns: of slots 0, a and b, `current` runs, and nothing else is READY. A worker
      alone is both a and b. */
  ghost predicate Arena(k: Kernel, a: nat, b: nat) {
    && Owned(k) && 0 < a <= b && Sound(k, a) && Sound(k, b)
    && k.current in {0, a, b}
    && forall t :: 0 <= t < |k.tasks| && k.tasks[t].state == Ready ==> t in {0, a, b}
  }

  /** What a turn leaves alone: RAM, the allocator, the other slots, and the stacks of these. */
  ghost predicate Same(before: Kernel, after: Kernel, a: nat, b: nat) {
    && after.alloc == before.alloc && |after.tasks| == |before.tasks|
    && after.createdTasks == before.createdTasks && after.reapedTasks == before.reapedTasks
    && forall t :: 1 <= t < |before.tasks| ==>
         && after.tasks[t].stackPage == before.tasks[t].stackPage
         && after.tasks[t].entry == before.tasks[t].entry && after.tasks[t].argument == before.tasks[t].argument
         && (t != a && t != b ==> after.tasks[t] == before.tasks[t])
  }

  lemma NearestIsNext(k: Kernel, next: nat)
    requires Owned(k) && next < |k.tasks| && k.tasks[next].state == Ready
    requires forall t :: 0 <= t < |k.tasks| && k.tasks[t].state == Ready ==>
               Distance(|k.tasks|, k.current, next) <= Distance(|k.tasks|, k.current, t)
    ensures FindNextReady(k.tasks, k.current) == next
  {
    FindReadyIsNearest(k.tasks, k.current, 1);
  }

  ghost predicate NextUp(k: Kernel, next: nat)
    requires Owned(k)
  {
    && next < |k.tasks| && k.tasks[next].state == Ready
    && forall t :: 0 <= t < |k.tasks| && k.tasks[t].state == Ready ==>
         Distance(|k.tasks|, k.current, next) <= Distance(|k.tasks|, k.current, t)
  }

  /** One turn ends: the current task is left in the given state and the next one runs. */
  ghost predicate Moved(k: Kernel, after: Kernel, a: nat, b: nat, left: TaskState, next: nat)
    requires Owned(k)
  {
    && Arena(after, a, b) && Same(k, after, a, b) && after.current == next
    && (forall t :: 0 <= t < |k.tasks| && t != next ==>
          after.tasks[t].state == if t == k.current then left else k.tasks[t].state)
    && after.contextSwitches == k.contextSwitches + 1
    && after.yieldCalls == k.yieldCalls + (if left == Ready then 1 else 0)
    && after.exitedTasks == k.exitedTasks + (if left == Finished then 1 else 0)
  }

  lemma DispatchMoves(k: Kernel, a: nat, b: nat, left: TaskState, next: nat)
    requires Arena(k, a, b) && next < |k.tasks| && k.tasks[next].state == Ready && next != k.current
    requires left == Ready || (left == Finished && k.current != 0)
    ensures var after := Dispatch(k, left, next);
      && Arena(after, a, b) && Same(k, after, a, b) && after.current == next
      && (forall t :: 0 <= t < |k.tasks| && t != next ==>
            after.tasks[t].state == if t == k.current then left else k.tasks[t].state)
      && after.contextSwitches == k.contextSwitches + 1
      && after.yieldCalls == k.yieldCalls && after.exitedTasks == k.exitedTasks
  {
    hide Inv;
    DispatchKeepsOwned(k, left, next);
    DispatchSlots(k, left, next);
  }

  /** Slot 0 has no canary to check, and the others' are sound. */
  lemma NothingToRecord(k: Kernel, a: nat, b: nat)
    requires Arena(k, a, b)
    ensures RecordStackError(k, k.current) == k
    ensures TaskYield(k) == GiveWay(k) && (k.current != 0 ==> TaskExit(k) == Leave(k))
  {
    hide Inv, GiveWay, Leave, Dispatch;
  }

  lemma YieldMoves(k: Kernel, a: nat, b: nat, next: nat)
    requires Arena(k, a, b) && next < |k.tasks| && k.tasks[next].state == Ready && next != k.current
    ensures Moved(k, Dispatch(CountYield(k), Ready, next), a, b, Ready, next)
  {
    hide Inv, Dispatch;
    assert Arena(CountYield(k), a, b);
    DispatchMoves(CountYield(k), a, b, Ready, next);
  }

  lemma ExitMoves(k: Kernel, a: nat, b: nat, next: nat)
    requires Arena(k, a, b) && next < |k.tasks| && k.tasks[next].state == Ready && next != k.current && k.current != 0
    ensures Moved(k, Dispatch(CountExit(k), Finished, next), a, b, Finished, next)
  {
    hide Inv, Dispatch;
    assert Arena(CountExit(k), a, b);
    DispatchMoves(CountExit(k), a, b, Finished, next);
  }

  lemma ArenaYield(k: Kernel, a: nat, b: nat, next: nat)
    requires Arena(k, a, b) && NextUp(k, next)
    ensures Moved(k, TaskYield(k), a, b, Ready, next)
  {
    hide Inv, TaskYield, GiveWay, Dispatch, Moved;
    NearestIsNext(k, next);
    NothingToRecord(k, a, b);
    GiveWayIsDispatch(k);
    YieldMoves(k, a, b, next);
  }

  lemma ArenaExit(k: Kernel, a: nat, b: nat, next: nat)
    requires Arena(k, a, b) && NextUp(k, next) && k.current != 0
    ensures Moved(k, TaskExit(k), a, b, Finished, next)
  {
    hide Inv, TaskExit, Leave, Dispatch, Moved;
    NearestIsNext(k, next);
    NothingToRecord(k, a, b);
    LeaveIsDispatch(k);
    ExitMoves(k, a, b, next);
  }

  // ---- Rounds ----

  function More(rounds: nat, round: nat): TaskState {
    if round < rounds then Ready else Finished
  }

  function Left(rounds: nat, round: nat): nat {
    if round < rounds then 0 else 1
  }

  predicate RunsAs(k: Kernel, task: nat, worker: Word, argument: Word) {
    task < |k.tasks| && k.tasks[task].entry == worker && k.tasks[task].argument == argument
  }

  /** The workers run the worker function, A with A's argument and B, if there is one, with B's. */
  predicate AsCreated(d: Demo) {
    && d.argumentA != d.argumentB
    && RunsAs(d.kernel, d.first, d.worker, d.argumentA)
    && (Alone(d) || RunsAs(d.kernel, d.second, d.worker, d.argumentB))
  }

  /** Some worker is still at it or waits to be reaped. */
  predicate Going(d: Demo) {
    if Alone(d) then d.outcome == WithoutB else d.outcome == InProgress && d.first < d.second
  }

  /** Before round i + 1: the shell runs and the workers wait, or after the last round have left. */
  ghost predicate AtShell(d: Demo, base: Kernel, i: nat) {
    && var (k, a, b) := (d.kernel, d.first, LastWorker(d));
    && Going(d) && AsCreated(d) && 1 <= d.rounds && i <= d.rounds
    && Arena(k, a, b) && Same(base, k, a, b) && k.current == 0
    && k.tasks[a].state == k.tasks[b].state == More(d.rounds, i)
    && d.roundA == i && (Alone(d) || d.roundB == i) && d.output == Lines(Alone(d), i)
    && k.contextSwitches == base.contextSwitches + i + Each(Alone(d), i)
    && k.yieldCalls + Each(Alone(d), Left(d.rounds, i)) == base.yieldCalls + i + Each(Alone(d), i)
    && k.exitedTasks == base.exitedTasks + Each(Alone(d), Left(d.rounds, i))
  }

  /** In round i + 1, with A about to print. */
  ghost predicate AtA(d: Demo, base: Kernel, i: nat) {
    && var (k, a, b) := (d.kernel, d.first, LastWorker(d));
    && Going(d) && AsCreated(d) && i < d.rounds
    && Arena(k, a, b) && Same(base, k, a, b) && k.current == a
    && k.tasks[0].state == Ready && (Alone(d) || k.tasks[b].state == Ready)
    && d.roundA == i && (Alone(d) || d.roundB == i) && d.output == Lines(Alone(d), i)
    && k.contextSwitches == base.contextSwitches + i + Each(Alone(d), i) + 1
    && k.yieldCalls == base.yieldCalls + i + Each(Alone(d), i) + 1
    && k.exitedTasks == base.exitedTasks
  }

  /** In round i + 1, with B about to print. */
  ghost predicate AtB(d: Demo, base: Kernel, i: nat) {
    && var (k, a, b) := (d.kernel, d.first, d.second);
    && Going(d) && AsCreated(d) && i < d.rounds && !Alone(d)
    && Arena(k, a, b) && Same(base, k, a, b) && k.current == b
    && k.tasks[0].state == Ready && k.tasks[a].state == More(d.rounds, i + 1)
    && d.roundA == i + 1 && d.roundB == i && d.output == Lines(false, i) + [('A', i + 1)]
    && k.contextSwitches == base.contextSwitches + 3 * i + 2
    && k.yieldCalls + Left(d.rounds, i + 1) == base.yieldCalls + 3 * i + 2
    && k.exitedTasks == base.exitedTasks + Left(d.rounds, i + 1)
  }

  lemma ShellTurn(d: Demo, base: Kernel, i: nat)
    requires AtShell(d, base, i) && i < d.rounds
    ensures AtA(Turn(d), base, i)
  {
    hide Inv;
    ArenaYield(d.kernel, d.first, LastWorker(d), d.first);
  }

  lemma TurnOfA(d: Demo, base: Kernel, i: nat)
    requires AtA(d, base, i)
    ensures if Alone(d) then AtShell(Turn(d), base, i + 1) else AtB(Turn(d), base, i)
  {
    hide Inv, TaskYield, TaskExit, TaskReap;
    WorkerTurnMoves(d.kernel, d.first, LastWorker(d), d.rounds, i, if Alone(d) then 0 else d.second);
  }

  lemma TurnOfB(d: Demo, base: Kernel, i: nat)
    requires AtB(d, base, i)
    ensures AtShell(Turn(d), base, i + 1)
  {
    hide Inv, TaskYield, TaskExit, TaskReap;
    WorkerTurnMoves(d.kernel, d.first, d.second, d.rounds, i, 0);
    assert Turn(d).output == Lines(false, i + 1);
  }

  /** A worker's turn: it yields, or leaves after its last round. */
  lemma WorkerTurnMoves(k: Kernel, a: nat, b: nat, rounds: nat, round: nat, next: nat)
    requires rounds >= 1 && Arena(k, a, b) && NextUp(k, next) && k.current != 0
    ensures Moved(k, WorkerTurn(k, rounds, round), a, b, More(rounds, round + 1), next)
  {
    hide Inv;
    if round + 1 < rounds {
      ArenaYield(k, a, b, next);
    } else {
      ArenaExit(k, a, b, next);
    }
  }

  function Round(d: Demo): (after: Demo)
    requires Owned(d.kernel) && d.rounds >= 1
    ensures Owned(after.kernel) && after.rounds == d.rounds
  {
    hide Turn, Owned;
    TurnKeepsOwned(d);
    TurnKeepsOwned(Turn(d));
    TurnKeepsOwned(Turn(Turn(d)));
    if Alone(d) then Turn(Turn(d)) else Turn(Turn(Turn(d)))
  }

  lemma OneRound(d: Demo, base: Kernel, i: nat)
    requires AtShell(d, base, i) && i < d.rounds
    ensures AtShell(Round(d), base, i + 1)
    ensures Round(d).first == d.first && Round(d).second == d.second
  {
    hide Inv, OwnedSlots, AtShell, TaskYield, TaskExit, TaskReap;
    AtShellSlots(d, base, i);
    ShellTurn(d, base, i);
    TurnOfA(Turn(d), base, i);
    if !Alone(d) {
      TurnOfB(Turn(Turn(d)), base, i);
    }
  }

  lemma RoundIsTurns(d: Demo, n: nat)
    requires Owned(d.kernel) && d.rounds >= 1
    ensures Turns(d, n + 1 + Each(Alone(Turns(d, n)), 1)) == Round(Turns(d, n))
  {
    hide Inv, OwnedSlots, Turn;
    assert Turns(d, n + 1) == Turn(Turns(d, n));
    assert Turns(d, n + 2) == Turn(Turns(d, n + 1));
  }

  /** How many turns i rounds take: the shell's and every worker's, over and over. */
  function RoundTurns(alone: bool, i: nat): nat {
    i + Each(alone, i)
  }

  lemma {:induction false} Rounds(d: Demo, base: Kernel, i: nat)
    requires Owned(d.kernel) && d.rounds >= 1 && AtShell(d, base, 0) && i <= d.rounds
    ensures var last := Turns(d, RoundTurns(Alone(d), i));
      AtShell(last, base, i) && last.first == d.first && last.second == d.second
  {
    hide Inv, OwnedSlots, Round, AtShell, Turn;
    if i > 0 {
      var n := RoundTurns(Alone(d), i - 1);
      Rounds(d, base, i - 1);
      OneRound(Turns(d, n), base, i - 1);
      RoundIsTurns(d, n);
    }
  }

  // ---- Before and after ----

  /** A successful task_create: one more live page, in a sound READY slot; sound slots stay sound. */
  lemma CreateIsSound(k: Kernel, entry: Word, argument: Word)
    requires Owned(k) && entry != NULL && FirstUnused(k.tasks, 1) < |k.tasks| && FreePages(k.alloc) > 0
    ensures var (c, task) := TaskCreate(k, entry, argument);
      && task == FirstUnused(k.tasks, 1) && Owned(c) && Sound(c, task) && RunsAs(c, task, entry, argument) && c.tasks[task].state == Ready
      && c == k.(alloc := c.alloc, tasks := k.tasks[task := c.tasks[task]],
                 createdTasks := k.createdTasks + 1, log := c.log)
      && !Live(k.alloc, c.tasks[task].stackPage)
      && (forall p :: Live(c.alloc, p) <==> Live(k.alloc, p) || p == c.tasks[task].stackPage)
      && FreePages(c.alloc) == FreePages(k.alloc) - 1
  {
    hide Inv, TaskCreate;
    CreateIsOccupy(k, entry, argument);
    CreateKeepsOwned(k, entry, argument);
    AllocateIsFresh(k.alloc);
    AllocateCounts(k.alloc);
    var (alloc, page) := Allocate(k.alloc);
    OccupyIsSound(k.(alloc := alloc), FirstUnused(k.tasks, 1), page, entry, argument);
  }

  lemma OccupyIsSound(k: Kernel, task: nat, page: Word, entry: Word, argument: Word)
    requires 1 <= task < |k.tasks| <= 0x8000_0000 && |k.alloc.memory| == RAM_WORDS && IsPage(page)
    ensures Sound(Occupy(k, task, page, entry, argument), task)
  {
    PageIndices(page);
  }

  lemma CreateKeepsSound(k: Kernel, entry: Word, argument: Word, other: nat)
    requires Owned(k) && Sound(k, other) && k.tasks[other].state != Unused
    ensures Sound(TaskCreate(k, entry, argument).0, other)
  {
    CreateIsOccupy(k, entry, argument);
    AllocateIsFresh(k.alloc);
    var (alloc, page) := Allocate(k.alloc);
    if page != NULL {
      PagesHaveOwnWords(page, k.tasks[other].stackPage);
    }
  }

  lemma PagesHaveOwnWords(p: nat, q: nat)
    requires IsPage(p) && IsPage(q) && p != q
    ensures WordAt(p) < RAM_WORDS && WordAt(q) < RAM_WORDS && WordAt(p) != WordAt(q)
    ensures PageOf(WordAt(p)) == p && PageOf(WordAt(q)) == q
  {
    PageIndices(p);
    PageIndices(q);
  }

  /** Reaping a sound FINISHED slot: its page is live no more, and other sound slots stay sound. */
  lemma ReapSound(k: Kernel, task: nat)
    requires Owned(k) && k.current == 0 && Sound(k, task) && k.tasks[task].state == Finished
    ensures var (c, reaped) := TaskReap(k, task);
      && reaped && Owned(c)
      && c == k.(alloc := c.alloc, tasks := k.tasks[task := CLEARED], reapedTasks := k.reapedTasks + 1,
                 retiredSchedules := c.retiredSchedules)
      && (forall p :: Live(c.alloc, p) <==> Live(k.alloc, p) && p != k.tasks[task].stackPage)
  {
    ReapSucceeds(k, task);
    ReapKeepsOwned(k, task);
    ReleaseTakesBack(k.alloc, k.tasks[task].stackPage);
  }

  lemma ReapKeepsSound(k: Kernel, task: nat, other: nat)
    requires Owned(k) && k.current == 0 && Sound(k, task) && k.tasks[task].state == Finished
    requires Sound(k, other) && other != task && k.tasks[other].state == Finished
    ensures Sound(TaskReap(k, task).0, other)
  {
    ReapSound(k, task);
    ReleaseTakesBack(k.alloc, k.tasks[task].stackPage);
    PagesHaveOwnWords(k.tasks[task].stackPage, k.tasks[other].stackPage);
  }

  // ---- The whole command ----

  /** The shell runs, and nothing else is waiting to. */
  ghost predicate Quiet(k: Kernel) {
    Owned(k) && k.current == 0 && forall t :: 0 <= t < |k.tasks| ==> k.tasks[t].state != Ready
  }

  /** A free slot and a free page. */
  ghost predicate RoomForOne(k: Kernel) {
    Quiet(k) && FreePages(k.alloc) >= 1 && FirstUnused(k.tasks, 1) < |k.tasks|
  }

  /** Two free slots and two free pages. */
  ghost predicate RoomForDemo(k: Kernel) {
    && RoomForOne(k) && FreePages(k.alloc) >= 2
    && FirstUnused(k.tasks, FirstUnused(k.tasks, 1) + 1) < |k.tasks|
  }

  /** Both workers created, or as many as there is room for. */
  function StartDemo(k: Kernel, worker: Word, argumentA: Word, argumentB: Word, rounds: nat): (d: Demo)
    requires Owned(k)
    ensures Owned(d.kernel) && d.rounds == rounds
  {
    CreateKeepsOwned(k, worker, argumentA);
    var (once, first) := TaskCreate(k, worker, argumentA);
    if first == TASK_ID_INVALID then Demo(once, worker, argumentA, argumentB, first, TASK_ID_INVALID, rounds, 0, 0, [], NoTaskA)
    else
      CreateKeepsOwned(once, worker, argumentB);
      var (twice, second) := TaskCreate(once, worker, argumentB);
      Demo(twice, worker, argumentA, argumentB, first, second, rounds, 0, 0, [], if second == TASK_ID_INVALID then WithoutB else InProgress)
  }

  lemma FirstUnusedElsewhere(s: seq<Slot>, t: seq<Slot>, changed: nat, from: nat)
    requires |s| == |t| && changed < from <= |s|
    requires forall i :: 0 <= i < |s| && i != changed ==> s[i] == t[i]
    ensures FirstUnused(s, from) == FirstUnused(t, from)
    decreases |s| - from
  {
    if from < |s| {
      FirstUnusedElsewhere(s, t, changed, from + 1);
    }
  }

  lemma FirstUnusedSkips(s: seq<Slot>, from: nat, to: nat)
    requires from <= to <= |s| && forall i :: from <= i < to ==> s[i].state != Unused
    ensures FirstUnused(s, from) == FirstUnused(s, to)
    decreases |s| - from
  {
    if from < to {
      FirstUnusedSkips(s, from + 1, to);
    }
  }

  lemma SecondSlot(k: Kernel, once: Kernel)
    requires RoomForOne(k) && |once.tasks| == |k.tasks|
    requires var first := FirstUnused(k.tasks, 1);
      once.tasks == k.tasks[first := once.tasks[first]] && once.tasks[first].state == Ready
    ensures FirstUnused(once.tasks, 1) == FirstUnused(k.tasks, FirstUnused(k.tasks, 1) + 1)
  {
    var first := FirstUnused(k.tasks, 1);
    FirstUnusedSkips(once.tasks, 1, first + 1);
    FirstUnusedElsewhere(once.tasks, k.tasks, first, first + 1);
  }

  /** The workers are in place, on pages that were not live before. */
  ghost predicate Started(k: Kernel, d: Demo) {
    var a, b, kernel := d.first, LastWorker(d), d.kernel;
    && 1 <= a <= b < |k.tasks| == |kernel.tasks| && k.tasks[a] == k.tasks[b] == CLEARED
    && kernel == k.(alloc := kernel.alloc, createdTasks := k.createdTasks + Each(Alone(d), 1), log := kernel.log,
                    tasks := k.tasks[a := kernel.tasks[a]][b := kernel.tasks[b]])
    && (forall p :: Live(k.alloc, p) <==>
          Live(kernel.alloc, p) && p != kernel.tasks[a].stackPage && p != kernel.tasks[b].stackPage)
  }

  lemma BothStart(k: Kernel, worker: Word, argumentA: Word, argumentB: Word, rounds: nat)
    requires RoomForDemo(k) && worker != NULL && rounds >= 1 && argumentA != argumentB
    ensures var d := StartDemo(k, worker, argumentA, argumentB, rounds);
      Started(k, d) && AtShell(d, d.kernel, 0) && !Alone(d)
  {
    hide Inv, TaskCreate;
    CreateIsSound(k, worker, argumentA);
    var (once, first) := TaskCreate(k, worker, argumentA);
    SecondSlot(k, once);
    CreateIsSound(once, worker, argumentB);
    CreateKeepsSound(once, worker, argumentB, first);
  }

  lemma OneStarts(k: Kernel, worker: Word, argumentA: Word, argumentB: Word, rounds: nat)
    requires RoomForOne(k) && !RoomForDemo(k) && worker != NULL && rounds >= 1 && argumentA != argumentB
    ensures var d := StartDemo(k, worker, argumentA, argumentB, rounds);
      Started(k, d) && AtShell(d, d.kernel, 0) && Alone(d)
  {
    hide Inv, TaskCreate;
    CreateIsSound(k, worker, argumentA);
    SecondFails(k, worker, argumentA, argumentB);
  }

  lemma SecondFails(k: Kernel, worker: Word, argumentA: Word, argumentB: Word)
    requires RoomForOne(k) && !RoomForDemo(k) && worker != NULL
    ensures var once := TaskCreate(k, worker, argumentA).0;
      Owned(once) && TaskCreate(once, worker, argumentB) == (once, TASK_ID_INVALID)
  {
    hide Inv, TaskCreate;
    CreateIsSound(k, worker, argumentA);
    var once := TaskCreate(k, worker, argumentA).0;
    SecondSlot(k, once);
    CreateIsOccupy(once, worker, argumentB);
  }

  /** The workers are reaped. */
  ghost predicate Ended(d: Demo, e: Demo)
    requires d.first < |d.kernel.tasks| && LastWorker(d) < |d.kernel.tasks|
  {
    var a, b, k := d.first, LastWorker(d), d.kernel;
    && e == d.(kernel := e.kernel, outcome := if Alone(d) then NoTaskB else Passed)
    && e.kernel == k.(alloc := e.kernel.alloc, tasks := k.tasks[a := CLEARED][b := CLEARED],
                      reapedTasks := k.reapedTasks + Each(Alone(d), 1), retiredSchedules := e.kernel.retiredSchedules)
    && (forall p :: Live(e.kernel.alloc, p) <==>
          Live(k.alloc, p) && p != k.tasks[a].stackPage && p != k.tasks[b].stackPage)
  }

  lemma DemoEnds(d: Demo, base: Kernel)
    requires AtShell(d, base, d.rounds)
    ensures Ended(d, Turn(d))
  {
    hide Inv;
    ReapSound(d.kernel, d.first);
    if !Alone(d) {
      ReapKeepsSound(d.kernel, d.first, d.second);
      ReapSound(TaskReap(d.kernel, d.first).0, d.second);
    }
  }

  /** The lines came out in strict alternation, with one context switch for every turn, and for every turn but
      each worker's last a yield; the tasks left and were reaped, and nothing is left of them. */
  ghost predicate Performed(k: Kernel, d: Demo, alone: bool, rounds: nat) {
    && d.outcome == (if alone then NoTaskB else Passed) && d.output == Lines(alone, rounds)
    && d.kernel.contextSwitches == k.contextSwitches + RoundTurns(alone, rounds)
    && d.kernel.yieldCalls + Each(alone, 1) == k.yieldCalls + RoundTurns(alone, rounds)
    && d.kernel.createdTasks == k.createdTasks + Each(alone, 1)
    && d.kernel.exitedTasks == k.exitedTasks + Each(alone, 1)
    && d.kernel.reapedTasks == k.reapedTasks + Each(alone, 1)
    && NothingLeft(k, d.kernel)
  }

  /** Live pages, and slots other than the shell's own, are what they were. */
  ghost predicate NothingLeft(before: Kernel, after: Kernel) {
    && |after.tasks| == |before.tasks| >= 1 && after.current == 0 && after.tasks[1..] == before.tasks[1..]
    && (forall p :: Live(after.alloc, p) <==> Live(before.alloc, p))
  }

  lemma StartToEnd(k: Kernel, start: Demo, last: Demo, end: Demo)
    requires Started(k, start) && AtShell(last, start.kernel, last.rounds)
    requires last.first == start.first && last.second == start.second && Ended(last, end)
    ensures Performed(k, end, Alone(start), last.rounds)
  {
    hide Inv, OwnedSlots;
  }

  lemma AtShellSlots(d: Demo, base: Kernel, i: nat)
    requires AtShell(d, base, i)
    ensures Owned(d.kernel) && d.rounds >= 1
    ensures d.first < |d.kernel.tasks| && LastWorker(d) < |d.kernel.tasks|
  {
  }

  /** taskdemo, for any number of rounds, whenever there is room for a worker: for both, 3r context switches
      and 3r - 2 yields; for A alone, 2r and 2r - 1. */
  lemma DemoTrace(k: Kernel, worker: Word, argumentA: Word, argumentB: Word, rounds: nat)
    requires RoomForOne(k) && worker != NULL && rounds >= 1 && argumentA != argumentB
    ensures var alone := !RoomForDemo(k);
      Performed(k, Turns(StartDemo(k, worker, argumentA, argumentB, rounds), RoundTurns(alone, rounds) + 1), alone, rounds)
  {
    hide Inv, OwnedSlots, Turn, Arena, AtShell, Started, Performed, RoomForDemo, RoundTurns;
    var start := StartDemo(k, worker, argumentA, argumentB, rounds);
    if RoomForDemo(k) {
      BothStart(k, worker, argumentA, argumentB, rounds);
    } else {
      OneStarts(k, worker, argumentA, argumentB, rounds);
    }
    Rounds(start, start.kernel, rounds);
    var last := Turns(start, RoundTurns(Alone(start), rounds));
    AtShellSlots(last, start.kernel, rounds);
    DemoEnds(last, start.kernel);
    StartToEnd(k, start, last, Turn(last));
  }

  // ---- Every outcome ----

  /** Once it is over, nothing more happens. */
  lemma {:induction false} TurnsAfterEnd(d: Demo, n: nat, m: nat)
    requires Owned(d.kernel) && d.rounds >= 1 && n <= m
    requires Turns(d, n).outcome != InProgress && Turns(d, n).outcome != WithoutB
    ensures Turns(d, m) == Turns(d, n)
    decreases m - n
  {
    hide Inv, OwnedSlots;
    if n < m {
      TurnsAfterEnd(d, n, m - 1);
    }
  }

  lemma NoRoomAtAll(k: Kernel, worker: Word, argumentA: Word, argumentB: Word, rounds: nat)
    requires Quiet(k) && !RoomForOne(k) && worker != NULL && rounds >= 1
    ensures var d := StartDemo(k, worker, argumentA, argumentB, rounds);
      d.outcome == NoTaskA && NothingLeft(k, d.kernel) && d.output == []
  {
    hide Inv;
    CreateIsOccupy(k, worker, argumentA);
  }

  /** taskdemo, started by the shell with nothing else READY: it passes if and only if there is room for
      both workers, reports the first one there is no room for otherwise, never fails, and whichever it is
      leaves no page and no slot behind. */
  lemma DemoAlwaysCleansUp(k: Kernel, worker: Word, argumentA: Word, argumentB: Word, rounds: nat)
    requires Quiet(k) && worker != NULL && rounds >= 1 && argumentA != argumentB
    ensures var end := Turns(StartDemo(k, worker, argumentA, argumentB, rounds), 3 * rounds + 1);
      && NothingLeft(k, end.kernel)
      && end.outcome == (if RoomForDemo(k) then Passed else if RoomForOne(k) then NoTaskB else NoTaskA)
      && end.output == (if RoomForOne(k) then Lines(!RoomForDemo(k), rounds) else [])
  {
    hide Inv, OwnedSlots, Turn, Turns, StartDemo, RoomForOne, FirstUnused;
    var start := StartDemo(k, worker, argumentA, argumentB, rounds);
    if RoomForOne(k) {
      DemoTrace(k, worker, argumentA, argumentB, rounds);
      TurnsAfterEnd(start, RoundTurns(!RoomForDemo(k), rounds) + 1, 3 * rounds + 1);
    } else {
      NoRoomAtAll(k, worker, argumentA, argumentB, rounds);
      StartsOver(start);
      TurnsAfterEnd(start, 0, 3 * rounds + 1);
    }
  }

  lemma StartsOver(d: Demo)
    requires Owned(d.kernel) && d.rounds >= 1
    ensures Turns(d, 0) == d
  {
  }
}
