/**
 task.c and task_switch.S as they run: the static slots and counters, updated in place over the page
 allocator. A method that ends in a context switch leaves the machine as the incoming task finds it.
 */
module InPlaceScheduler {
  import opened Bits
  import opened PageAlloc
  import opened InPlaceAllocator
  import opened Task
  import opened TaskOwnership
  import opened TaskHistory

  class TaskScheduler {
    const pages: PageAllocator
    const tasks: array<Slot>
    const bootstrap: Word
    var current: nat
    var createdTasks: nat
    var contextSwitches: nat
    var yieldCalls: nat
    var exitedTasks: nat
    var reapedTasks: nat
    var stackErrors: nat
    var initialized: bool
    var cpu: Registers
    var halted: bool
    ghost var log: seq<Event>
    ghost var retiredSchedules: nat

    ghost function State(): Kernel
      reads this, tasks, pages, pages.memory
    {
      Kernel(pages.State(), tasks[..], current, createdTasks, contextSwitches, yieldCalls, exitedTasks,
             reapedTasks, stackErrors, initialized, bootstrap, cpu, halted, log, retiredSchedules)
    }

    ghost predicate Valid()
      reads this, tasks, pages, pages.memory
    {
      && tasks as object != pages.memory && tasks.Length > 0
      && Shape(State())
    }

    /** The static variables before task_init, over an allocator and slots that are already there. */
    constructor (allocator: PageAllocator, slots: array<Slot>, entryPoint: Word, registers: Registers)
      requires allocator.Valid() && 1 <= slots.Length <= 0x8000_0000 && slots as object != allocator.memory
      requires forall i :: 0 <= i < slots.Length ==> slots[i] == CLEARED
      ensures Valid() && State() == Kernel(allocator.State(), slots[..], 0, 0, 0, 0, 0, 0, 0,
                                           false, entryPoint, registers, false, [], 0)
    {
      pages, tasks, bootstrap, cpu := allocator, slots, entryPoint, registers;
      current, createdTasks, contextSwitches, yieldCalls, exitedTasks, reapedTasks, stackErrors := 0, 0, 0, 0, 0, 0, 0;
      initialized, halted := false, false;
      log, retiredSchedules := [], 0;
    }

    method FindNext() returns (next: nat)
      requires Valid()
      ensures next == FindNextReady(tasks[..], current)
    {
      var n := tasks.Length;
      var distance := 1;
      while distance < n
        invariant 1 <= distance <= n
        invariant FindNextReady(tasks[..], current) == FindReady(tasks[..], current, distance)
      {
        var candidate := (current + distance) % n;
        AroundIsRemainder(n, current, distance);
        if tasks[candidate].state == Ready {
          return candidate;
        }
        distance := distance + 1;
      }
      return TASK_ID_INVALID;
    }

    static lemma AroundIsRemainder(n: nat, task: nat, distance: nat)
      requires task < n && distance < n
      ensures (task + distance) % n == Around(n, task, distance)
    {
      if task + distance < n {
        DivModUnique(task + distance, n, 0, task + distance);
      } else {
        DivModUnique(task + distance, n, 1, task + distance - n);
      }
    }

    method Record(task: nat)
      requires Valid() && task < tasks.Length
      modifies tasks, `stackErrors
      ensures Valid() && State() == RecordStackError(old(State()), task)
    {
      ghost var before := State();
      var slot := tasks[task];
      if !slot.stackCorrupted {
        var intact := true;
        if slot.stackPage != NULL {
          PageIndices(slot.stackPage);
          intact := pages.memory[WordAt(slot.stackPage)] == StackCanary(task);
        }
        if !intact {
          tasks[task] := slot.(stackCorrupted := true);
          stackErrors := stackErrors + 1;
        }
      }
      assert State() == RecordStackError(before, task);
    }

    /** task_context_switch: the outgoing registers go to one context record, pair by pair, and the incoming
        ones come from another. */
    method SwitchContext(previous: nat, next: nat, ghost exiting: bool)
      requires previous < tasks.Length && next < tasks.Length && previous != next
      modifies tasks, `cpu, `log
      ensures cpu == old(tasks[next].context) && tasks[previous].context == old(cpu)
      ensures State() == ContextSwitch(old(State()), previous, next, exiting)
    {
      ghost var before := State();
      var saved := tasks[previous].context;
      saved := saved.(x19 := cpu.x19, x20 := cpu.x20);
      saved := saved.(x21 := cpu.x21, x22 := cpu.x22);
      saved := saved.(x23 := cpu.x23, x24 := cpu.x24);
      saved := saved.(x25 := cpu.x25, x26 := cpu.x26);
      saved := saved.(x27 := cpu.x27, x28 := cpu.x28);
      saved := saved.(x29 := cpu.x29, x30 := cpu.x30);
      saved := saved.(sp := cpu.sp);
      tasks[previous] := tasks[previous].(context := saved);

      var loaded := tasks[next].context;
      cpu := cpu.(x19 := loaded.x19, x20 := loaded.x20);
      cpu := cpu.(x21 := loaded.x21, x22 := loaded.x22);
      cpu := cpu.(x23 := loaded.x23, x24 := loaded.x24);
      cpu := cpu.(x25 := loaded.x25, x26 := loaded.x26);
      cpu := cpu.(x27 := loaded.x27, x28 := loaded.x28);
      cpu := cpu.(x29 := loaded.x29, x30 := loaded.x30);
      cpu := cpu.(sp := loaded.sp);
      log := log + [Switched(previous, next, saved, loaded, exiting)];
      assert State() == ContextSwitch(before, previous, next, exiting);
    }

    method ClearSlots()
      requires Valid()
      modifies tasks
      ensures Valid() && State() == old(State()).(tasks := tasks[..])
      ensures forall i :: 0 <= i < tasks.Length ==> tasks[i] == CLEARED
    {
      var task := 0;
      while task < tasks.Length
        invariant 0 <= task <= tasks.Length
        invariant forall i :: 0 <= i < task ==> tasks[i] == CLEARED
      {
        tasks[task] := CLEARED;
        task := task + 1;
      }
    }

    method ResetCounters()
      modifies this
      ensures State() == old(State()).(createdTasks := 0, contextSwitches := 0, yieldCalls := 0, exitedTasks := 0,
                                       reapedTasks := 0, stackErrors := 0)
    {
      createdTasks := 0;
      contextSwitches := 0;
      yieldCalls := 0;
      exitedTasks := 0;
      reapedTasks := 0;
      stackErrors := 0;
    }

    method Init()
      requires Valid()
      modifies this, tasks
      ensures Valid() && State() == TaskInit(old(State()))
    {
      ghost var before := State();
      if initialized {
        return;
      }
      ClearSlots();
      current := 0;
      tasks[0] := tasks[0].(state := Running);
      tasks[0] := tasks[0].(scheduleCount := 1);
      ResetCounters();
      initialized := true;
      assert tasks[..] == TaskInit(before).tasks;
      assert State() == TaskInit(before);
    }

    method FindUnused() returns (task: nat)
      requires Valid()
      ensures task == FirstUnused(tasks[..], 1)
    {
      task := 1;
      while task < tasks.Length
        invariant 1 <= task <= tasks.Length
        invariant FirstUnused(tasks[..], 1) == FirstUnused(tasks[..], task)
      {
        if tasks[task].state == Unused {
          break;
        }
        task := task + 1;
      }
    }

    /** Fills an unused slot and plants its canary in the page. */
    method Populate(task: nat, page: Word, entry: Word, argument: Word)
      requires Valid() && 1 <= task < tasks.Length && IsPage(page) && Live(pages.State(), page)
      modifies this, tasks, pages.memory
      ensures Valid() && State() == Occupy(old(State()), task, page, entry, argument)
    {
      ghost var before := State();
      PageIndices(page);
      assert PageOf(WordAt(page)) == page;
      StoreKeepsLinks(before.alloc, WordAt(page), StackCanary(task));
      tasks[task] := CLEARED;
      tasks[task] := tasks[task].(entry := entry, argument := argument);
      tasks[task] := tasks[task].(stackPage := page);
      tasks[task] := tasks[task].(state := Ready);
      pages.memory[WordAt(page)] := StackCanary(task);
      var context := tasks[task].context.(sp := Wrap64(page + PAGE_SIZE));
      context := context.(x30 := bootstrap);
      tasks[task] := tasks[task].(context := context);
      createdTasks := createdTasks + 1;
      log := log + [Created(task, page, entry, argument)];
      assert pages.State() == Store(before.alloc, WordAt(page), StackCanary(task));
      assert State() == Occupy(before, task, page, entry, argument);
    }

    method Create(entry: Word, argument: Word) returns (task: nat)
      requires Valid()
      modifies this, tasks, pages, pages.memory
      ensures Valid() && (State(), task) == TaskCreate(old(State()), entry, argument)
    {
      ghost var before := State();
      if !initialized || entry == NULL {
        return TASK_ID_INVALID;
      }
      task := FindUnused();
      if task == tasks.Length {
        return TASK_ID_INVALID;
      }
      AllocateIsFresh(before.alloc);
      var page := pages.Alloc();
      if page == NULL {
        return TASK_ID_INVALID;
      }
      assert State() == before.(alloc := pages.State());
      Populate(task, page, entry, argument);
    }

    method Yield()
      requires Valid()
      modifies this, tasks
      ensures Valid() && State() == TaskYield(old(State()))
    {
      if !initialized {
        return;
      }
      Record(current);
      if tasks[current].stackCorrupted && current != 0 {
        LeaveCurrent();
        return;
      }
      HandOver();
    }

    /** The second half of task_yield. */
    method HandOver()
      requires Valid()
      modifies this, tasks
      ensures Valid() && State() == GiveWay(old(State()))
    {
      FindReadyIsNearest(tasks[..], current, 1);
      yieldCalls := yieldCalls + 1;
      var next := FindNext();
      if next == TASK_ID_INVALID {
        return;
      }
      tasks[current] := tasks[current].(state := Ready);
      Resume(next, Ready);
    }

    /** What task_yield and task_exit both end with. */
    method Resume(next: nat, ghost left: TaskState)
      requires Valid() && next < tasks.Length && next != current && tasks[current].state == left
      modifies this, tasks
      ensures Valid()
      ensures State() == Dispatch(old(State()), left, next)
    {
      var previous := current;
      Choose(next, left);
      SwitchContext(previous, next, left == Finished);
    }

    method Choose(next: nat, ghost left: TaskState)
      requires Valid() && next < tasks.Length && next != current && tasks[current].state == left
      modifies this, tasks
      ensures Valid() && State() == Chosen(old(State()), left, next)
    {
      ghost var before := State();
      tasks[next] := tasks[next].(state := Running);
      tasks[next] := tasks[next].(scheduleCount := tasks[next].scheduleCount + 1);
      current := next;
      contextSwitches := contextSwitches + 1;
      assert tasks[..] == Chosen(before, left, next).tasks;
    }

    /** task_exit, up to its first context switch: slot 0 only ever yields. */
    method Exit()
      requires Valid()
      modifies this, tasks
      ensures Valid() && State() == TaskExit(old(State()))
    {
      if !initialized || current == 0 {
        Yield();
        return;
      }
      LeaveCurrent();
    }

    method LeaveCurrent()
      requires Valid()
      modifies this, tasks
      ensures Valid() && State() == ExitCurrent(old(State()))
    {
      Record(current);
      GoAway();
    }

    /** The second half of task_exit. */
    method GoAway()
      requires Valid()
      modifies this, tasks
      ensures Valid() && State() == Leave(old(State()))
    {
      tasks[current] := tasks[current].(state := Finished);
      exitedTasks := exitedTasks + 1;
      FindReadyIsNearest(tasks[..], current, 1);
      var next := FindNext();
      if next != TASK_ID_INVALID {
        Resume(next, Finished);
      } else {
        halted := true;
      }
    }

    method Reap(task: nat) returns (reaped: bool)
      requires Valid()
      modifies this, tasks, pages, pages.memory
      ensures Valid() && (State(), reaped) == TaskReap(old(State()), task)
    {
      hide Inv;
      if !initialized || current != 0 || task >= tasks.Length || task == current {
        return false;
      }
      if tasks[task].state != Finished || tasks[task].stackPage == NULL {
        return false;
      }
      Record(task);
      if tasks[task].stackCorrupted {
        return false;
      }
      ghost var before := State();
      ReleaseTakesBack(before.alloc, tasks[task].stackPage);
      var freed := pages.Free(tasks[task].stackPage);
      if !freed {
        return false;
      }
      Clear(task, before);
      return true;
    }

    method Clear(task: nat, ghost before: Kernel)
      requires Valid() && task < tasks.Length && State() == before.(alloc := pages.State())
      modifies this, tasks
      ensures Valid() && State() == Vacate(before, task, old(pages.State()))
    {
      retiredSchedules := retiredSchedules + tasks[task].scheduleCount;
      tasks[task] := CLEARED;
      reapedTasks := reapedTasks + 1;
      assert State() == Vacate(before, task, pages.State());
    }

    method ReapFinished() returns (count: nat)
      requires Valid()
      modifies this, tasks, pages, pages.memory
      ensures Valid()
      ensures old(initialized) ==> (State(), count) == ReapFrom(old(State()), 1)
      ensures !old(initialized) ==> State() == old(State()) && count == 0
    {
      hide Inv, TaskReap;
      count := 0;
      if !initialized {
        return;
      }
      ghost var goal := ReapFrom(State(), 1);
      var task := 1;
      while task < tasks.Length
        invariant 1 <= task <= tasks.Length
        invariant Valid()
        invariant var rest := ReapFrom(State(), task); goal == (rest.0, rest.1 + count)
      {
        ReapKeepsShape(State(), task);
        var reaped := Reap(task);
        if reaped {
          count := count + 1;
        }
        task := task + 1;
      }
    }

    /** The slot counts of task_get_stats, which fills in zeros and counts up. */
    method Stats() returns (ok: bool, active: nat, ready: nat, finished: nat)
      requires Valid()
      ensures ok == initialized
      ensures ok ==> finished == Count(tasks[..]).finished
      ensures ok ==> active + finished == Count(tasks[..]).occupied
      ensures ok && Owned(State()) ==> ready + 1 == active
    {
      ok, active, ready, finished := initialized, 0, 0, 0;
      if !ok {
        return;
      }
      var task := 0;
      while task < tasks.Length
        invariant 0 <= task <= tasks.Length
        invariant finished == Count(tasks[..task]).finished
        invariant active + finished == Count(tasks[..task]).occupied
        invariant Owned(State()) ==> active == ready + if current < task then 1 else 0
      {
        var state := tasks[task].state;
        if state == Running || state == Ready {
          active := active + 1;
        }
        if state == Ready {
          ready := ready + 1;
        }
        if state == Finished {
          finished := finished + 1;
        }
        assert tasks[..task + 1][..task] == tasks[..task];
        task := task + 1;
      }
      assert tasks[..task] == tasks[..];
    }
  }
}
