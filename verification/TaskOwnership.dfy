/**
 Who runs and who owns which page: the part of the scheduler's invariant that ties the task slots to the
 allocator, and what each operation does to it.
 */
module TaskOwnership {
  import opened Bits
  import opened PageAlloc
  import opened Task

  /** Exactly the current slot is RUNNING; slot 0 owns no page and never leaves; every other slot in use
      owns a live page of its own; unused slots are clear. */
  ghost predicate Owned(k: Kernel) {
    k.initialized && !k.halted && OwnedSlots(k.alloc, k.tasks, k.current)
  }

  ghost predicate OwnedSlots(alloc: Allocator, tasks: seq<Slot>, current: nat) {
    && ShapeOf(alloc, tasks, current)
    && (forall i :: 0 <= i < |tasks| ==> (tasks[i].state == Running <==> i == current))
    && tasks[0].stackPage == NULL && !tasks[0].stackCorrupted && tasks[0].state in {Ready, Running}
    && (forall i :: 1 <= i < |tasks| ==>
          if tasks[i].state == Unused then tasks[i] == CLEARED else Live(alloc, tasks[i].stackPage))
    && (forall i, j :: 1 <= i < j < |tasks| && tasks[i].state != Unused && tasks[j].state != Unused ==>
          tasks[i].stackPage != tasks[j].stackPage)
  }

  lemma LiveIsPage(a: Allocator, page: nat)
    requires Inv(a) && Live(a, page)
    ensures IsPage(page) && page != NULL
  {
  }

  lemma RecordKeepsOwned(k: Kernel, task: nat)
    requires Owned(k) && task < |k.tasks|
    ensures Owned(RecordStackError(k, task))
    ensures RecordStackError(k, task).tasks[task].stackCorrupted ==> task != 0 && k.tasks[task].state != Unused
  {
    LiveIsPageForall(k);
  }

  lemma LiveIsPageForall(k: Kernel)
    requires Owned(k)
    ensures forall i :: 1 <= i < |k.tasks| && k.tasks[i].state != Unused ==> IsPage(k.tasks[i].stackPage)
  {
    forall i | 1 <= i < |k.tasks| && k.tasks[i].state != Unused
      ensures IsPage(k.tasks[i].stackPage)
    {
      LiveIsPage(k.alloc, k.tasks[i].stackPage);
    }
  }

  /** Whoever leaves, someone READY is found: so the halt loop at the end of task_exit is never entered. */
  lemma SomeoneIsReady(k: Kernel)
    requires Owned(k) && k.current != 0
    ensures FindNextReady(k.tasks, k.current) != TASK_ID_INVALID
  {
    FindReadyIsNearest(k.tasks, k.current, 1);
    assert k.tasks[0].state == Ready;
  }

  lemma DispatchKeepsOwned(k: Kernel, left: TaskState, next: nat)
    requires Owned(k) && next < |k.tasks| && k.tasks[next].state == Ready && next != k.current
    requires left == Ready || (left == Finished && k.current != 0)
    ensures Owned(Dispatch(k, left, next))
    ensures Dispatch(k, left, next).alloc == k.alloc
  {
  }

  function CountYield(k: Kernel): Kernel {
    k.(yieldCalls := k.yieldCalls + 1)
  }

  function CountExit(k: Kernel): Kernel {
    k.(exitedTasks := k.exitedTasks + 1)
  }

  lemma GiveWayIsDispatch(k: Kernel)
    requires Shape(k)
    ensures var next := FindNextReady(k.tasks, k.current);
      if next == TASK_ID_INVALID then GiveWay(k) == CountYield(k)
      else
        && next < |k.tasks| && k.tasks[next].state == Ready && next != k.current
        && GiveWay(k) == Dispatch(CountYield(k), Ready, next)
  {
    FindReadyIsNearest(k.tasks, k.current, 1);
    var next := FindNextReady(k.tasks, k.current);
    if next != TASK_ID_INVALID {
      MarkTwice(CountYield(k), Ready, next);
    }
  }

  lemma GiveWayKeepsOwned(k: Kernel)
    requires Owned(k)
    ensures Owned(GiveWay(k)) && GiveWay(k).alloc == k.alloc
  {
    GiveWayIsDispatch(k);
    var next := FindNextReady(k.tasks, k.current);
    assert Owned(CountYield(k));
    if next != TASK_ID_INVALID {
      DispatchKeepsOwned(CountYield(k), Ready, next);
    }
  }

  lemma YieldKeepsOwned(k: Kernel)
    requires Owned(k)
    ensures Owned(TaskYield(k)) && TaskYield(k).alloc == k.alloc
  {
    RecordKeepsOwned(k, k.current);
    var r := RecordStackError(k, k.current);
    if r.tasks[r.current].stackCorrupted && r.current != 0 {
      ExitKeepsOwned(r);
    } else {
      GiveWayKeepsOwned(r);
    }
  }

  /** Leaving from any slot but 0 is a context switch to a READY task; in particular nothing halts. */
  lemma LeaveIsDispatch(k: Kernel)
    requires Owned(k) && k.current != 0
    ensures var next := FindNextReady(k.tasks, k.current);
      && next < |k.tasks| && k.tasks[next].state == Ready && next != k.current
      && Leave(k) == Dispatch(CountExit(k), Finished, next)
  {
    SomeoneIsReady(k);
    FindReadyIsNearest(k.tasks, k.current, 1);
    var f := k.tasks[k.current := k.tasks[k.current].(state := Finished)];
    SameReadySameChoice(k.tasks, f, k.current, 1);
    MarkTwice(CountExit(k), Finished, FindNextReady(k.tasks, k.current));
  }

  lemma LeaveKeepsOwned(k: Kernel)
    requires Owned(k) && k.current != 0
    ensures Owned(Leave(k)) && Leave(k).alloc == k.alloc
  {
    LeaveIsDispatch(k);
    assert Owned(CountExit(k));
    DispatchKeepsOwned(CountExit(k), Finished, FindNextReady(k.tasks, k.current));
  }

  /** The choice depends only on which of the other slots are READY. */
  lemma {:induction false} SameReadySameChoice(s: seq<Slot>, t: seq<Slot>, current: nat, distance: nat)
    requires |s| == |t| && current < |s| && 1 <= distance <= |s|
    requires forall i :: 0 <= i < |s| && i != current ==> (s[i].state == Ready <==> t[i].state == Ready)
    ensures FindReady(s, current, distance) == FindReady(t, current, distance)
    decreases |s| - distance
  {
    if distance < |s| {
      SameReadySameChoice(s, t, current, distance + 1);
    }
  }

  lemma ExitKeepsOwned(k: Kernel)
    requires Owned(k) && k.current != 0
    ensures Owned(ExitCurrent(k)) && ExitCurrent(k).alloc == k.alloc
  {
    RecordKeepsOwned(k, k.current);
    LeaveKeepsOwned(RecordStackError(k, k.current));
  }

  lemma TaskExitKeepsOwned(k: Kernel)
    requires Owned(k)
    ensures Owned(TaskExit(k))
  {
    if k.current == 0 {
      YieldKeepsOwned(k);
    } else {
      ExitKeepsOwned(k);
    }
  }

  lemma OccupyKeepsOwned(k: Kernel, alloc: Allocator, task: nat, page: Word, entry: Word, argument: Word)
    requires Owned(k) && 1 <= task < |k.tasks| && k.tasks[task].state == Unused
    requires Inv(alloc) && IsPage(page) && !Live(k.alloc, page)
    requires forall p :: Live(alloc, p) <==> Live(k.alloc, p) || p == page
    ensures Owned(Occupy(k.(alloc := alloc), task, page, entry, argument))
  {
    PageIndices(page);
    assert PageOf(WordAt(page)) == page;
    StoreKeepsLinks(alloc, WordAt(page), StackCanary(task));
  }

  /** task_create fails exactly when it is given no entry, every slot is taken, or no page is free, and
      then changes nothing; otherwise it takes the first unused slot. */
  lemma CreateIsOccupy(k: Kernel, entry: Word, argument: Word)
    requires Owned(k)
    ensures var (c, task) := TaskCreate(k, entry, argument);
      var free := FirstUnused(k.tasks, 1);
      && (task == TASK_ID_INVALID <==> entry == NULL || free == |k.tasks| || FreePages(k.alloc) == 0)
      && (task == TASK_ID_INVALID ==> c == k)
      && (task != TASK_ID_INVALID ==>
            var (alloc, page) := Allocate(k.alloc);
            task == free && IsPage(page) && |alloc.memory| == RAM_WORDS &&
            c == Occupy(k.(alloc := alloc), task, page, entry, argument))
  {
    hide Inv;
    AllocateIsFresh(k.alloc);
  }

  lemma CreateKeepsOwned(k: Kernel, entry: Word, argument: Word)
    requires Owned(k)
    ensures Owned(TaskCreate(k, entry, argument).0)
  {
    CreateIsOccupy(k, entry, argument);
    var (c, task) := TaskCreate(k, entry, argument);
    if task != TASK_ID_INVALID {
      AllocateIsFresh(k.alloc);
      var (alloc, page) := Allocate(k.alloc);
      OccupyKeepsOwned(k, alloc, task, page, entry, argument);
    }
  }

  /** A slot that task_reap takes when slot 0 asks for it. */
  predicate Reapable(k: Kernel, task: nat)
    requires Shape(k) && task < |k.tasks|
  {
    k.tasks[task].state == Finished && !k.tasks[task].stackCorrupted &&
    StackCanaryOk(k.alloc.memory, k.tasks[task], task)
  }

  /** task_reap takes a slot exactly when slot 0 is running, the slot is FINISHED, and its stack was never
      found corrupted and is not corrupted now; the page_free inside it cannot fail. */
  lemma ReapSucceeds(k: Kernel, task: nat)
    requires Owned(k)
    ensures TaskReap(k, task).1 <==>
      k.current == 0 && task < |k.tasks| && Reapable(k, task)
  {
    if k.current == 0 && task < |k.tasks| && k.tasks[task].state == Finished {
      RecordKeepsOwned(k, task);
      var r := RecordStackError(k, task);
      LiveIsPage(r.alloc, r.tasks[task].stackPage);
      ReleaseTakesBack(r.alloc, r.tasks[task].stackPage);
    }
  }

  lemma ReapKeepsOwned(k: Kernel, task: nat)
    requires Owned(k)
    ensures Owned(TaskReap(k, task).0)
  {
    hide Inv;
    if k.current == 0 && task < |k.tasks| && k.tasks[task].state == Finished {
      RecordKeepsOwned(k, task);
      var r := RecordStackError(k, task);
      ReleaseTakesBack(r.alloc, r.tasks[task].stackPage);
    }
  }

  lemma ReapKeepsShape(k: Kernel, task: nat)
    requires Shape(k)
    ensures Shape(TaskReap(k, task).0) && |TaskReap(k, task).0.tasks| == |k.tasks|
    ensures TaskReap(k, task).0.current == k.current
  {
    hide Inv;
    if task < |k.tasks| {
      ReleaseTakesBack(k.alloc, RecordStackError(k, task).tasks[task].stackPage);
    }
  }

  /** Every word of every page live both before and after is the same. */
  ghost predicate Untouched(before: Allocator, after: Allocator) {
    && |before.memory| == |after.memory| == RAM_WORDS
    && forall i: nat :: i < RAM_WORDS && Live(before, PageOf(i)) && Live(after, PageOf(i)) ==>
         after.memory[i] == before.memory[i]
  }

  lemma FreedWordIsDead(a: Allocator, page: Word)
    requires Inv(a)
    ensures Untouched(a, Release(a, page).0)
  {
    ReleaseTakesBack(a, page);
    if Live(a, page) {
      PageIndices(page);
      assert PageOf(WordAt(page)) == page;
    }
  }

  lemma ReapTouchesOnlyItsPage(k: Kernel, task: nat)
    requires Owned(k)
    ensures Untouched(k.alloc, TaskReap(k, task).0.alloc)
  {
    var (c, reaped) := TaskReap(k, task);
    if reaped {
      FreedWordIsDead(k.alloc, k.tasks[task].stackPage);
    } else {
      ReapSucceeds(k, task);
      if k.current == 0 && task < |k.tasks| && k.tasks[task].state == Finished {
        RecordKeepsOwned(k, task);
        var r := RecordStackError(k, task);
        ReleaseTakesBack(r.alloc, r.tasks[task].stackPage);
      }
    }
  }

  /** task_reap_finished: every slot from task on, in order, and how many were reaped. */
  function ReapFrom(k: Kernel, task: nat): (r: (Kernel, nat))
    requires Shape(k) && task <= |k.tasks|
    ensures Shape(r.0) && |r.0.tasks| == |k.tasks| && r.0.current == k.current
    decreases |k.tasks| - task
  {
    if task == |k.tasks| then (k, 0)
    else
      ReapKeepsShape(k, task);
      var (next, reaped) := TaskReap(k, task);
      var (last, count) := ReapFrom(next, task + 1);
      (last, count + if reaped then 1 else 0)
  }

  /** Reaping one slot does not touch another, its canary included. */
  lemma ReapIsLocal(k: Kernel, task: nat, other: nat)
    requires Owned(k) && other < |k.tasks| && other != task
    ensures Owned(TaskReap(k, task).0)
    ensures TaskReap(k, task).0.tasks[other] == k.tasks[other]
    ensures Reapable(TaskReap(k, task).0, other) <==> Reapable(k, other)
  {
    hide Inv;
    var after := TaskReap(k, task).0;
    ReapKeepsOwned(k, task);
    assert after.tasks[other] == k.tasks[other];
    if k.tasks[other].state == Finished {
      ReapTouchesOnlyItsPage(k, task);
      LiveIsPage(k.alloc, k.tasks[other].stackPage);
      PageIndices(k.tasks[other].stackPage);
      assert PageOf(WordAt(k.tasks[other].stackPage)) == k.tasks[other].stackPage;
    }
  }

  /** When slot 0 calls task_reap_finished, every FINISHED slot with a sound stack is cleared, every other
      FINISHED slot is marked corrupted, and no other slot changes. */
  lemma {:induction false} ReapFromClears(k: Kernel, task: nat, other: nat)
    requires Owned(k) && k.current == 0 && 1 <= task <= |k.tasks| && other < |k.tasks|
    ensures var (r, count) := ReapFrom(k, task);
      && Owned(r) && r.reapedTasks == k.reapedTasks + count
      && r.tasks[other] ==
           if other < task || k.tasks[other].state != Finished then k.tasks[other]
           else if Reapable(k, other) then CLEARED
           else k.tasks[other].(stackCorrupted := true)
    decreases |k.tasks| - task
  {
    hide Inv;
    if task < |k.tasks| {
      ReapKeepsOwned(k, task);
      ReapSucceeds(k, task);
      ReapFromClears(TaskReap(k, task).0, task + 1, other);
      if other != task {
        ReapIsLocal(k, task, other);
      }
    }
  }

  ghost function ReapableFrom(k: Kernel, task: nat): set<nat>
    requires Shape(k)
  {
    set t: nat | task <= t < |k.tasks| && Reapable(k, t)
  }

  /** ... and it returns how many slots had a sound stack. */
  lemma {:induction false} ReapFromCounts(k: Kernel, task: nat)
    requires Owned(k) && k.current == 0 && 1 <= task <= |k.tasks|
    ensures ReapFrom(k, task).1 == |ReapableFrom(k, task)|
    decreases |k.tasks| - task
  {
    hide Inv, Reapable, TaskReap;
    if task < |k.tasks| {
      ReapSucceeds(k, task);
      ReapKeepsOwned(k, task);
      ReapKeepsShape(k, task);
      var after := TaskReap(k, task).0;
      forall t: nat | task < t < |k.tasks|
        ensures Reapable(after, t) <==> Reapable(k, t)
      {
        ReapIsLocal(k, task, t);
      }
      ReapFromCounts(after, task + 1);
      var here: set<nat> := if Reapable(k, task) then {task} else {};
      assert ReapableFrom(k, task) == ReapableFrom(after, task + 1) + here;
    }
  }
}
