# A verified model of the mini OS kernel

This project models the parts of a small bare-metal ARM64 kernel that carry invariants, and proves what the
kernel relies on: the page allocator and the cooperative scheduler that share RAM words, the UART receive
ring with its wakeup protocol, the in-place command-line tokenizer, the decimal parser and printer, the line
editor with its history ring, the MMU tables, and the timer's tick arithmetic.

Where the kernel updates things in place, a class with the same variables does so too, and each of its
methods is tied to a function of the whole state; the theorems are about those functions, over every input,
every run and every interleaving.

- `Bits.dfy`: 64-bit words, wrap-around, and the bitwise operators as the arithmetic they stand for.
- `PageAlloc.dfy`, `InPlaceAllocator.dfy`, `MemTest.dfy`: RAM as words, the bump pointer and the free list whose
  links live in the freed pages; the allocator as it runs; the `memtest` command as its client.
- `Task.dfy`, `TaskOwnership.dfy`, `TaskOutcomes.dfy`, `TaskHistory.dfy`, `TaskRun.dfy`, `TaskTheorems.dfy`, `InPlaceScheduler.dfy`,
  `TaskDemo.dfy`: the scheduler as a transition system over that allocator, for any number of slots; its
  invariants and the theorems about whole runs; the scheduler as it runs; the `taskdemo` command.
- `UartRing.dfy`, `InPlaceReceiver.dfy`: the ring under every interleaving of atomic steps, with the event
  register of SEV, SEVL and WFE; and the same code run without interruption.
- `CStrings.dfy`, `Tokenizer.dfy`, `CommandGrammar.dfy`: `parse_arguments` in place, a pure tokenizer, and the
  grammar both implement.
- `Decimal.dfy`: `parse_uint64` and `uart_put_uint64`.
- `Console.dfy`, `ConsoleKeys.dfy`, `ConsoleHistory.dfy`, `InPlaceConsole.dfy`: the line editor, the terminal, what
  each key comes to, the history, and
  `console_readline` as it runs.
- `Mmu.dfy`: the translation tables and the hardware walk. `Timer.dfy`: the tick counter.

A run of the kernel is a list of steps of whichever task is running: create, yield, exit, reap, allocate,
free, store a word anywhere in a live page (stacks and canaries included), compute. Two things are left to
the running task: it frees no task's stack page, and it writes only to live pages. The first is necessary:
`page_free` takes a stack page as readily as any other, and `TaskRun.FreeKeepsOwnedIff` shows that the
ownership invariant survives a `page_free` if and only if the page is no task's stack.

The proofs use `hide` to keep definitions that a step does not need out of the solver's sight.

## Main results

The table below lists every member that states something about the source; these are the ones the others
lead up to.

- Allocator: `AllocateIsFresh`, `ReleaseTakesBack` and `ServeAll` (any run of requests), `UsedPagesCountsLivePages`,
  `InitializeManagesTheRest`; as client, `MemoryTest`.
- Scheduler, over every run: `EveryRunIsSound`, `OnlyStoresTouchLivePages`, `CanaryPersists`, `CorruptionIsForever`,
  `ComesBackUnchanged`, `StartsAsCreated`, `FinishedNeverRuns`, `BoundedWaiting`, `FreeKeepsOwnedIff`; operation by
  operation, `CreateOutcome`, `YieldOutcome`, `ExitOutcome`, `ReapOutcome`, `ReapFromClears`; as client, `DemoTrace`
  and `DemoAlwaysCleansUp`.
- Receive ring, under every interleaving: `StepRefinesFifo`, `BytesComeThrough` and `RingIsSafe`. The high-water mark
  is not always the most that was ever queued: `MarkMeasuresPeak` and `MarkIsExactUnlessPopped` say how far off it
  can be and when, `MarkCanBeOneTooHigh` gives the run.
- Command line: `ParseArguments` against the pure tokenizer, `TokenizeIsMeaning` and `TokenizeOfRender` against
  the grammar, `RoundTrip`.
- Numbers: `ParseUint64` and `PutUint64`, joined in `PrintThenParse`.
- Line editor: `Typing`, `TypedLineIsSubmitted`, `EscapeSequences` and `UpAndDown`; `ScreenAgrees`, `DraftRestored`,
  `HistoryIsRecent`; and `Readline`, which is the editor they speak of.
- Tables and time: `WalkIsIdentity` and `LivePagesAreMapped`; `HandleStaysOnGrid`, `NoDrift` and `SleepIsLongEnough`.

## Model

| member | source | states |
|---|---|---|
| `PageAlloc.AllocateIsFresh` | src/page_alloc.c:57-79 | `page_alloc` returns NULL exactly when `page_free_pages()` is 0; otherwise a page of zeros that was not live; every other live page stays live and unchanged, and the free list stays well linked |
| `PageAlloc.ReleaseTakesBack` | src/page_alloc.c:81-104 | `page_free` succeeds exactly on a live page (double frees, unaligned and foreign addresses refused), changes only word 0 of that page, and its `used_pages == 0` guard never decides |
| `PageAlloc.FreedPageComesBackFirst` | src/page_alloc.c:64-66 | the page freed last is allocated first, and then the allocator is back where it was but for the contents of that page |
| `PageAlloc.FreshPagesComeInOrder` | src/page_alloc.c:67-74 | with nothing to reuse, pages are handed out in the order of their addresses |
| `PageAlloc.UsedPagesCountsLivePages` | src/page_alloc.c:106-116 | `used_pages` is exactly the number of live pages |
| `PageAlloc.StoreKeepsLinks` | src/page_alloc.c:9-20 | a client that writes only live pages leaves the intrusive list and the set of live pages as they are |
| `PageAlloc.InitializeManagesTheRest` | src/page_alloc.c:30-55 | initialisation manages every page from the first boundary after the kernel to the end of RAM, nothing live; it manages none if and only if the kernel end is a page or more below RAM or past the start of its last page; a second call changes nothing |
| `PageAlloc.KernelBelowRamGetsAllPages` | src/page_alloc.c:35-50 | the guard looks at the rounded address: a kernel that ends one byte below RAM gets all 32768 pages |
| `PageAlloc.ServeAll` | src/page_alloc.c:57-104 | over any run of allocations, frees of arbitrary addresses and stores to live pages: free list acyclic, duplicate-free, aligned, inside the bumped range, and used + free = bumped |
| `InPlaceAllocator.PageAllocator.AlignUpToPage` | src/page_alloc.c:30-32 | the mask expression rounds up to a page boundary modulo 2^64 |
| `InPlaceAllocator.PageAllocator.ZeroPage` | src/page_alloc.c:22-28 | the loop clears all 512 words of the page and no other word of RAM |
| `InPlaceAllocator.PageAllocator.Init` | src/page_alloc.c:34-55 | the in-place initialisation is `Initialize`: bump pointer at the rounded kernel end, empty list, or no pages at all |
| `InPlaceAllocator.PageAllocator.Alloc` | src/page_alloc.c:57-79 | popping the link read from RAM, or bumping, then counting and zeroing, is exactly `Allocate`, of which `AllocateIsFresh` speaks |
| `InPlaceAllocator.PageAllocator.OnFreeList` | src/page_alloc.c:93-97 | walking the links terminates and finds a page exactly when it is on the free list |
| `InPlaceAllocator.PageAllocator.Free` | src/page_alloc.c:81-104 | the guards, the walk for a double free and the push through word 0 of the page are exactly `Release`, of which `ReleaseTakesBack` speaks |
| `MemTest.PageIsZero` | src/shell.c:245-254 | finds exactly whether every word of the page is zero |
| `MemTest.WriteAndCheck` | src/shell.c:274-291 | patterns written to three held pages stand there and are read back intact |
| `MemTest.MemoryTest` | src/shell.c:256-335 | `memtest` passes if and only if three pages are free at the start, a double free is never accepted, and whatever happens the live pages are the same afterwards |
| `Task.CanariesDiffer` | src/task.c:33-35 | no two slots have the same stack canary |
| `Task.FindReadyIsNearest` | src/task.c:77-87 | round robin picks the READY slot nearest after the current one, and none only if no other slot is READY |
| `TaskOutcomes.CreateOutcome` | src/task.c:118-153 | `task_create` fails, changing nothing, exactly when there is no entry, no unused slot or no free page; otherwise the first unused slot has the entry and argument given, no mark, a page that was not live with the slot's canary in word 0 and zeros elsewhere, SP at the page's end, a return into `task_bootstrap` and zeros in the other registers; no other slot, page or register changes |
| `TaskOutcomes.NothingBeforeInit` | src/task.c:126-128 | until `task_init` has run, create, yield, exit and reap do nothing |
| `TaskOutcomes.InitOutcome` | src/task.c:97-116 | slot 0 RUNNING and scheduled once, all other slots empty, all counters zero; nothing the second time |
| `TaskOutcomes.YieldOutcome` | src/task.c:155-181 | a task whose canary word is wrong is marked, counted, FINISHED and replaced; any other stays READY and hands over, or goes on if nobody is READY; handing over gives the CPU all thirteen registers of the nearest READY slot, saves all thirteen of the CPU in the slot left, and touches no other slot |
| `TaskOutcomes.ExitOutcome` | src/task.c:183-211 | from slot 0 a yield; from any other slot FINISHED, marked and counted if its canary word is wrong, and the CPU handed over in the same way |
| `TaskOutcomes.BrokenCanaryEndsTask` | src/task.c:163-166 | a broken canary not yet recorded is recorded at the next yield or exit, and the task is FINISHED and another runs |
| `TaskOutcomes.ReapOutcome` | src/task.c:213-239 | slot 0 reaping a FINISHED slot: with a sound stack the slot is empty and its page no longer live, with a broken one it is marked and counted once; in every other case nothing changes |
| `TaskOwnership.CreateKeepsOwned` | src/task.c:118-153 | creation keeps: one RUNNING slot, slot 0 without a stack, every used slot owning a live page of its own |
| `TaskOwnership.LeaveIsDispatch` | src/task.c:183-211 | a task leaving from any slot but 0 finds a READY successor and switches to it: the halt loop is unreachable |
| `TaskOwnership.YieldKeepsOwned` | src/task.c:155-181 | yielding - or leaving, on a broken canary - keeps ownership and touches neither RAM nor the allocator |
| `TaskOwnership.ReapSucceeds` | src/task.c:213-239 | `task_reap` succeeds exactly from slot 0, on a FINISHED slot whose stack was never found corrupted and is not now; its `page_free` cannot fail |
| `TaskOwnership.ReapKeepsOwned` | src/task.c:213-239 | reaping keeps the ownership invariant |
| `TaskOwnership.ReapFromClears` | src/task.c:241-255 | `task_reap_finished` clears exactly the FINISHED slots with a sound stack, marks exactly the other FINISHED ones corrupted, and leaves every other slot as it was |
| `TaskOwnership.ReapIsLocal` | src/task.c:213-239 | reaping one slot changes no other: neither its record nor the word its canary is in |
| `TaskOwnership.ReapFromCounts` | src/task.c:241-255 | and it returns how many FINISHED slots had a sound stack |
| `TaskRun.InitEstablishesInvariant` | src/task.c:97-116 | `task_init` establishes the whole invariant |
| `TaskRun.FreeKeepsOwnedIff` | src/page_alloc.c:81-104 | ownership survives a client's `page_free` if and only if the page is no task's stack |
| `TaskRun.StepKeepsInvariant` | src/task.c:118-239 | every step keeps ownership, the counter laws, the faithfulness of the context log, and that only a FINISHED slot is marked corrupted |
| `TaskRun.YieldContains` | src/task.c:162-165 | `task_yield` lets nobody go on whose stack it finds corrupted |
| `TaskRun.Run` | src/task.c:118-239 | the invariant holds after any run |
| `TaskTheorems.EveryRunIsSound` | src/task.c:97-308 | from boot, in every reachable state: exactly the current slot is RUNNING, slot 0 is RUNNING or READY, nothing halts, stacks are distinct live pages off the free list; created = reaped + occupied slots above 0; exited = reaped + FINISHED; switches = exited + yields that found a successor, and these are at most `yield_calls`; 1 + switches = all schedule counts, reaped slots' included; stack errors = corrupted slots, at most N-1, all of them FINISHED |
| `TaskTheorems.OnlyStoresTouchLivePages` | src/page_alloc.c:57-104 | apart from a client's own store, no step changes any word of a page that is live before and after it: links and zeroing never touch a stack |
| `TaskTheorems.StepKeepsSlot` | src/task.c:44-49 | a used slot keeps its stack, entry and argument until it is reaped; corruption is recorded only on a broken canary and never forgotten |
| `TaskTheorems.CorruptionIsForever` | src/task.c:155-230 | a slot found corrupted is never reaped, reused or freed through any run, and its task never runs again |
| `TaskTheorems.CanaryPersists` | src/task.c:37-49 | through any run in which nobody writes the canary word and the slot is not reaped, the canary stays right and no error is recorded |
| `TaskTheorems.ResumedUnchanged` | src/task_switch.S:8-26 | at every switch of every run the incoming registers are those saved when that slot was last switched out, or those of a first run; a slot that has left is never resumed, even after reuse |
| `TaskTheorems.ComesBackUnchanged` | src/task_switch.S:8-26 | a task that gives up the CPU and stays READY has, in the state in which it next runs, exactly the registers of the state in which it gave it up, whatever ran in between |
| `TaskTheorems.StartsAsCreated` | src/task.c:89-95 | in the state in which a new task first runs, the CPU is in `task_bootstrap` with SP at page + 4096, and its slot has the entry and argument it was created with |
| `TaskTheorems.FinishedNeverRuns` | src/task.c:194-206 | a FINISHED task is never the one running, through any run, until its slot is reaped |
| `TaskTheorems.FirstRunIsBootstrap` | src/task.c:89-95 | a task that has not run starts in `task_bootstrap` with SP at page + 4096, which finds the entry and argument it was created with |
| `TaskTheorems.DispatchComesNearer` | src/task.c:77-87 | every switch that passes a READY task by brings its turn strictly nearer |
| `TaskTheorems.BoundedWaiting` | src/task.c:168-206 | for N slots a READY task runs within its cyclic distance, at most N-1 context switches, whatever the others do |
| `InPlaceScheduler.TaskScheduler.constructor` | src/task.c:23-31 | the static variables before `task_init` |
| `InPlaceScheduler.TaskScheduler.FindNext` | src/task.c:77-87 | the search loop, with its remainder, is the round-robin choice |
| `InPlaceScheduler.TaskScheduler.Record` | src/task.c:44-49 | the canary check in RAM marks and counts a broken stack once |
| `InPlaceScheduler.TaskScheduler.SwitchContext` | src/task_switch.S:8-26 | the pairwise stores and loads exchange all of x19-x30 and SP with the two context records |
| `InPlaceScheduler.TaskScheduler.Init` | src/task.c:97-116 | the loop over the slots and the counters is `TaskInit`: all slots clear, slot 0 RUNNING; nothing the second time |
| `InPlaceScheduler.TaskScheduler.Create` | src/task.c:118-153 | slot search, page allocation, canary and first context in place are exactly `TaskCreate`, its failures included |
| `InPlaceScheduler.TaskScheduler.Yield` | src/task.c:155-181 | canary check, forced exit on corruption, choice and switch in place are exactly `TaskYield` |
| `InPlaceScheduler.TaskScheduler.Exit` | src/task.c:183-211 | up to its first context switch it is exactly `TaskExit`: slot 0 only yields, others become FINISHED and hand over |
| `InPlaceScheduler.TaskScheduler.Reap` | src/task.c:213-239 | the guards, the canary check, `page_free` and the clearing in place are exactly `TaskReap`, of which `ReapSucceeds` speaks |
| `InPlaceScheduler.TaskScheduler.ReapFinished` | src/task.c:241-255 | the in-place loop is `ReapFrom` slot 1 and returns its count; before `task_init` it does nothing |
| `InPlaceScheduler.TaskScheduler.Stats` | src/task.c:277-308 | fails before `task_init`; otherwise active, ready and finished are counted slot by slot: active + finished is the slots in use, and all active slots but one are READY |
| `TaskDemo.OneRound` | src/shell.c:353-366 | a round is one turn of the shell, one of A and - unless A is alone - one of B, in that order, with one line from each worker |
| `TaskDemo.DemoTrace` | src/shell.c:378-447 | for every number of rounds r, nothing else READY: with two free slots and two free pages `taskdemo` passes, prints A1 B1 A2 B2 ... Ar Br and takes 3r context switches and 3r-2 yields; with room for one worker only, A1 ... Ar, 2r and 2r-1; each worker prints as the argument its own slot was created with says, is created, exits and is reaped once, and the live pages and all other slots are what they were |
| `TaskDemo.DemoAlwaysCleansUp` | src/shell.c:378-447 | with nothing else READY, `taskdemo` passes if and only if there is room for both workers, otherwise reports the first it has no room for, never reports a failed cleanup, and in every case leaves no page and no slot behind |
| `UartRing.SlotIsRemainder` | src/uart.c:69-85 | masking a wrapped counter gives its remainder by the capacity, across the 32-bit wrap |
| `UartRing.StepKeepsInv` | src/uart.c:59-158 | every atomic step of producer, consumer, timer or hardware keeps the protocol invariant |
| `UartRing.StepRefinesFifo` | src/uart.c:59-88 | under any interleaving the ring is a FIFO limited to 256: publishing head appends the byte and finds room, publishing tail hands out the oldest byte, and no other step - no store to the buffer - changes what is queued |
| `UartRing.DropsOnlyWhenFull` | src/uart.c:60-67 | a byte is dropped exactly when the ring held 256 bytes when the handler read the tail |
| `UartRing.WaitsOnlyWhenEmpty` | src/uart.c:78-83 | the consumer goes to wait exactly when the ring was empty when it read the head |
| `UartRing.BufferedCountIsBounded` | src/uart.c:242-246 | the buffered count, with its two loads apart, is never more than what is queued, nor than 256 |
| `UartRing.MarkOnlyRises` | src/uart.c:71-73 | the high-water mark never falls and is never more than 256 |
| `UartRing.MarkMeasuresPeak` | src/uart.c:71-73 | over any run the high-water mark is at most one more than was ever queued, and, when the handler is not about to store it, at least that |
| `UartRing.MarkIsExactUnlessPopped` | src/uart.c:60-73 | what is stored as the mark is the fill at publication if and only if nothing was popped since the handler read the tail |
| `UartRing.MarkCanBeOneTooHigh` | src/uart.c:60-73 | a run in which no more than one byte is ever queued and the mark is two |
| `UartRing.RingIsSafe` | src/uart.c:59-220 | from boot: popped bytes are a prefix of accepted ones, (head - tail) mod 2^32 stays in 0..256, received = accepted + dropped = arrived less what is still in the hardware between handler runs, the high-water mark covers what is queued except between publishing a byte and storing the mark, and while `uart_getc` is asleep and no handler runs the ring is empty - also when sleeps elsewhere have consumed events |
| `UartRing.BytesComeThrough` | src/uart.c:90-107 | over any run, the bytes that arrived are, in order, those dealt with, the one in the handler's hand and those still in the hardware; the ring accepted exactly those not dropped, every drop is counted, and what was handed out is a prefix of that; without overflows it is a prefix of what arrived |
| `UartRing.GetcReturnsWithByte` | src/uart.c:209-220 | `uart_getc` comes back only by taking the oldest byte |
| `UartRing.EventsComeAndGo` | src/uart.c:154-157 | events are left by the timer, by SEVL and by a handler that kept a byte, and taken by waits; nothing else changes the register |
| `UartRing.CountStartsExact` | src/uart.c:242-246 | at its first load the buffered count is exact |
| `UartRing.HandlerFinishes` | src/uart.c:90-158 | the handler's steps are bounded by the hardware FIFO, and it returns only after finding that empty |
| `UartRing.HandlerWakesWaiter` | src/uart.c:154-157 | its last step leaves the event register set for a consumer waiting over a non-empty ring |
| `InPlaceReceiver.UartReceiver.Push` | src/uart.c:59-75 | appends the byte when there is room, else drops and counts it; the high-water mark is the largest fill |
| `InPlaceReceiver.UartReceiver.Pop` | src/uart.c:77-88 | takes the oldest byte, if there is one |
| `InPlaceReceiver.UartReceiver.DrainFifo` | src/uart.c:90-107 | empties the hardware FIFO: the first bytes that fit are queued in order, the rest dropped and counted, all counted as received |
| `InPlaceReceiver.UartReceiver.BufferedCount` | src/uart.c:242-246 | undisturbed, the count is exact |
| `Tokenizer.ReadWord` | src/shell.c:72-122 | the inner loop reads one word in place, the write cursor never passing the read cursor, and ends with the pure tokenizer's state or verdict |
| `Tokenizer.SkipSpaces` | src/shell.c:56-62 | skipping spaces changes nothing but the read cursor |
| `Tokenizer.ParseArguments` | src/shell.c:45-127 | in place, on the line as it was: the verdict and arguments of the pure tokenizer; every pointer in bounds and at its NUL-terminated argument; NULL after the last; nothing after the line's NUL changed; the loops terminate |
| `Tokenizer.PointersIncrease` | src/shell.c:68-70 | on any line the argument pointers are strictly increasing, each past the NUL of the argument before |
| `Tokenizer.OverflowIsFinal` | src/shell.c:64-67 | once there is a ninth argument the rest of the line does not matter |
| `CommandGrammar.ParseRenders` | src/shell.c:45-127 | every line is the writing of a tree of words made of plain characters, escapes and quotations |
| `CommandGrammar.ParseOfRender` | src/shell.c:45-127 | and of only one: parsing the writing of a tree gives the tree back |
| `CommandGrammar.TokenizeIsMeaning` | src/shell.c:26-32 | each of the five results occurs exactly when the line's tree says so, with exactly its arguments |
| `CommandGrammar.TokenizeOfRender` | README.md:151-155 | any mix of plain characters, escapes and quotations, however written, yields what it means |
| `CommandGrammar.RoundTrip` | README.md:107-110 | printing any list - each argument in double or single quotes with escapes, or if not empty with every character escaped, or bare if it has only plain characters - with any positive number of spaces between, then tokenizing, gives the list back; more than eight give TOO_MANY and the first eight |
| `CommandGrammar.PrintedLineParses` | src/shell.c:45-127 | the same in memory: pointers to the printed arguments, strictly increasing, NULL-ended |
| `Decimal.ParseUint64` | src/shell.c:153-178 | accepts exactly the non-empty digit strings denoting a number below 2^64, and yields it: the overflow test is exact |
| `Decimal.SplitDigits` | src/uart.c:185-196 | 20 digits are always enough, and they are the value's digits, last one first |
| `Decimal.PutUint64` | src/uart.c:184-201 | prints a numeral that denotes the value and has no leading zero |
| `Decimal.CanonicalIsUnique` | src/uart.c:184-201 | there is only one such numeral |
| `Decimal.PrintThenParse` | src/shell.c:153-178 | parsing what was printed returns the number |
| `Console.KeyKeepsInv` | src/console.c:113-202 | after every byte the line and the draft are printable and shorter than the capacity, and the history offset is in range |
| `ConsoleKeys.OneByte` | src/console.c:173-196 | a printable byte is added if there is room, Backspace and Delete take the last one away, Enter submits, other control bytes but ESC do nothing |
| `ConsoleKeys.Typing` | src/console.c:192-196 | typing any printable text adds exactly that text, as far as there is room |
| `ConsoleKeys.TypedLineIsSubmitted` | src/console.c:113-202 | a line that fits, typed at an empty prompt and ended with Enter, is the line submitted |
| `ConsoleKeys.ErasingTakesBack` | src/console.c:183-190 | Backspace or Delete after typing leaves what was typed without its last character |
| `ConsoleKeys.EscapeSequences` | src/console.c:133-150 | ESC [ and ESC O introduce the same keys, an unknown final byte does nothing, and ESC before any other byte is as if not there |
| `ConsoleKeys.UpArrow` | src/console.c:152-160 | up shows the next older line cut to the capacity, saving the line being written when it leaves it; at the oldest line nothing |
| `ConsoleKeys.DownArrow` | src/console.c:161-169 | down shows the next newer line, after the newest the line that was being written; on that nothing |
| `ConsoleKeys.UpArrows` | src/console.c:152-160 | k times up shows the k-th newest line, or the oldest |
| `ConsoleKeys.UpAndDown` | src/console.c:152-169 | k times up and m times down shows the (k-m)-th newest line, and the line being written when m is k |
| `Console.DraftRestored` | src/console.c:152-169 | leaving the line for the history and coming back, through any mix of moves and edits, restores exactly the line that was left |
| `Console.KeyShows` | src/console.c:100-201 | one byte's echo keeps what the terminal shows in agreement with the buffer and never moves into or over the prompt |
| `Console.ScreenAgrees` | src/console.c:113-202 | after any input short of Enter the text left of the cursor is exactly prompt + edit buffer, with blanks to the right, and no character sent on the way touched the prompt |
| `ConsoleHistory.AddRemembers` | src/console.c:84-98 | `history_add` on the ring is remembering on the list it stands for |
| `ConsoleHistory.HistoryIsRecent` | README.md:103-106 | over any number of lines the ring holds the last eight non-blank ones, consecutive duplicates dropped |
| `ConsoleHistory.EntryIsRecent` | src/console.c:78-82 | after any lines, `history_entry(k)` is the k-th newest of those last eight, for every k up to the count |
| `InPlaceConsole.StringsEqual` | src/console.c:26-35 | compares two C strings |
| `InPlaceConsole.IsBlankLine` | src/console.c:37-45 | true exactly for strings of spaces only |
| `InPlaceConsole.CopyString` | src/console.c:47-61 | copies a C string, cut to leave room for its NUL, and writes nothing outside the destination |
| `InPlaceConsole.SaveLine` | src/console.c:63-76 | saves the line, cut to leave room for its NUL |
| `InPlaceConsole.LineConsole.HistoryAdd` | src/console.c:84-98 | the in-place operation overwrites at most the oldest row, as the ring function says |
| `InPlaceConsole.LineConsole.ReplaceLine` | src/console.c:100-111 | rubs out the old line and shows the new one, cut to the capacity |
| `InPlaceConsole.LineConsole.HandleKey` | src/console.c:130-196 | one byte, in the source's variables and buffers, is one step of the editor |
| `InPlaceConsole.LineConsole.Readline` | src/console.c:113-202 | over any input: the buffer holds the editor's line with its NUL, the echo is the editor's, and after Enter the line is remembered |
| `Mmu.TableDescriptorIs` | src/mmu.c:105-108 | a table descriptor is the table's address with its two low bits set |
| `Mmu.BlockDescriptorIs` | src/mmu.c:110-113 | a block descriptor is the block's address with the attribute fields beside it |
| `Mmu.WalkIsIdentity` | src/mmu.c:99-140 | walking the built tables maps every address of the GIC and UART blocks to itself as non-executable device memory, every RAM address to itself as Normal memory, both for the kernel alone, and faults everywhere else |
| `Mmu.LivePagesAreMapped` | src/page_alloc.c:45-54 | every byte of every page the allocator hands out is mapped to itself as Normal memory |
| `Mmu.TranslationTables.ClearTable` | src/mmu.c:99-103 | clears all 512 entries |
| `Mmu.TranslationTables.MapDeviceBlock` | src/mmu.c:115-120 | writes the one entry of the block |
| `Mmu.TranslationTables.MapRam` | src/mmu.c:133-139 | the loop maps the 64 blocks of RAM and nothing else |
| `Mmu.TranslationTables.Build` | src/mmu.c:122-140 | builds tables for which the walk is the identity |
| `Timer.HandleStaysOnGrid` | src/timer.c:52-66 | a handler call, late or early, keeps next_deadline = t0 + (ticks + 1) * interval and ticks = floor((now - t0) / interval) if and only if the next deadline still fits 64 bits |
| `Timer.StartIsOnGrid` | src/timer.c:31-50 | the first deadline is one interval after the start, unless the counter is about to wrap |
| `Timer.IntervalIsHundredth` | src/timer.c:31-40 | the interval is a hundredth of the frequency, rounded down, and at least 1; the first deadline is one interval away |
| `Timer.NoDrift` | src/timer.c:52-66 | any sequence of handler calls leaves the clock on its grid |
| `Timer.TicksMeasureTime` | src/timer.c:80-88 | d ticks between two readings mean more than d - 1 whole intervals between them |
| `Timer.SleepIsLongEnough` | src/timer.c:80-88 | whatever handler calls come in between, when the ticks seen have grown by d the counter has advanced by more than d - 1 intervals between the readings behind them, and before that by less than d + 1 |
| `Timer.TickTimer.HandleInterrupt` | src/timer.c:52-66 | the catch-up in place, in wrapping 64-bit arithmetic, is exactly `Handle`, of which `HandleStaysOnGrid` speaks |
| `Timer.TickTimer.SleepTicks` | src/timer.c:80-88 | waits through early wakes and ends at the first wake at which enough ticks have passed |

## Left out

- Counted: the scheduler's statistics counters are unbounded here; in the source they are 64-bit and wrap. Every update adds one and no branch reads them, so the source's values are these modulo 2^64.
- DemoTrace: the number of rounds is any positive number; that `taskdemo` takes at most one argument and bounds it is not modelled.
- Exit: one turn of `task_exit` is modelled; the loop in which slot 0 goes on yielding for ever is that turn again and again.
- ServeAll: `page_alloc.c` serves one caller at a time; it is never called from an interrupt, and no interleaving is modelled.
- Readline: a byte stream that never contains Enter leaves the source waiting for ever; here the input simply ends, so every prefix of a session is covered.
- SleepIsLongEnough: holds while the 64-bit counter does not wrap, as `NoDrift` requires; `HandleStaysOnGrid` says exactly when a deadline stops fitting.
- Code run inside a task between kernel calls is a sequence of register changes and stores; its instructions, and what it keeps on its stack, are not modelled.
- `task_get_info`, `task_current_id` and the other getters: they copy fields.
- `rx_errors`, `rx_interrupts` and the UART's device registers, `uart_init`, `uart_put_hex64`: no state that anything else depends on. The hardware FIFO is an arbitrary sequence of bytes, arriving at any time.
- Weak memory: the machine has one CPU, so the steps of the ring interleave in some order.
- `mmu_init`: system registers, barriers, TLB and cache maintenance.
- Terminal lines that wrap, and the newline that Enter prints: the screen is one row of unbounded width, up to Enter.
- Shell text and the command dispatch, `exception.c`, `irq.c`, `gic.c`, `platform.c`, `kernel.c`, boot code and the linker script: straight-line code; the kernel's end address is arbitrary.
