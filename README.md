# l_coroutine scheduler, modelled in Dafny

`l_coroutine.c` is a small cooperative (non-preemptive) coroutine library
built on `ucontext`. A scheduler block holds a FIFO ready list of task
control blocks (`task_list`) and an enqueue counter (`task_size`). Each task
has a status (`TASK_DEAD`, `TASK_READY`, `TASK_RUNING`, `TASK_EXIT`).

- `task_create` appends a new task to the list.
- `task_yield` re-appends the running task and gives control back.
- `task_exit` marks the running task exited and gives control back without
  re-appending it.
- `schedule` repeatedly unlinks the head of the list, marks it running and
  switches into it, until the list is empty.
- `close_coroutine` frees whatever is still in the list and then the
  scheduler.

`main` runs two tasks, with arguments 44 and 66, through `foo`. Each prints
its argument and yields ten times, then exits.

The project has three files:

- `wrappers.dfy` holds the `Option` type used for handles that may be NULL.
- `coroutine.dfy` holds the class `Coroutine.Scheduler`. Its fields are the
  ready list (a sequence of task ids), `task_size`, the task running now,
  the control blocks (a map from id to block) and the set of freed blocks.
  Each C function is a method that updates these fields in place. The
  machine context switch is a control-transfer step: `PopHead` sets
  `running` in the same step that marks the task RUNNING, and the task's
  yield or exit clears it. The scheduler's invariant `Valid` says three
  things. The task that control is in is the only task with status RUNNING.
  Every READY task is in the list. Every listed task is READY or has its
  status unwritten. A task's function is a script, "yield k times, then
  exit". What it prints before each yield goes to an `output` field, and
  each turn of control adds an event to `trace`.
- `simulation.dfy` holds a pure reference simulation, `Simulation.Simulate`,
  of the ready list as a queue of such scripts. `Schedule` is proved to
  produce exactly the simulation's trace, output and enqueue count. The
  round-robin, resumption-count and exit-is-final properties are then
  proved about the simulation. The demo's outcome follows from them.

The model follows the code as written, including three points a reader
might not expect:

- `task_create` never writes the new block's status (lines 72-75), so a
  freshly created task sits in the ready list with its status unwritten
  (`None`), not `Ready`.
- `task_size` is incremented by every create and every yield and never
  decremented (lines 91, 104). It counts enqueues, not live tasks.
- An exited task is never freed. The `free(t)` in `task_exit` (line 123)
  runs only if something swaps back into the exited task. `schedule` never
  does, because an exited task is not in the list. `close_coroutine` frees
  only the tasks still in the list. `RunDemo` therefore states that after a
  full run both task blocks are left allocated.

## Model

| member | source | states |
|---|---|---|
| Coroutine.Scheduler.constructor | l_coroutine.c:138-140 | a new scheduler has an empty ready list, `task_size` 0 and no tasks |
| Coroutine.Scheduler.Open | l_coroutine.c:129-144 | returns NULL exactly when the allocation fails; otherwise a fresh scheduler with an empty list and a zero count |
| Coroutine.Scheduler.CreateTask | l_coroutine.c:58-94 | succeeds exactly when both malloc and getcontext succeed. On success the new task gets a fresh handle and is appended at the tail, the earlier entries keep their order, `task_size` grows by exactly 1 and the new block's status is unwritten. On failure the list, count and blocks are unchanged. A zero stack size is a precondition |
| Coroutine.Scheduler.YieldTask | l_coroutine.c:96-108 | the running task becomes READY and is appended at the tail, `task_size` grows by 1 and control returns to the scheduler |
| Coroutine.Scheduler.ExitTask | l_coroutine.c:110-126 | the running task becomes EXIT, the list and `task_size` are untouched, the task is not in the list, and control returns to the scheduler |
| Coroutine.Scheduler.PopHead | l_coroutine.c:170-178 | removes exactly the head of the list, keeps the rest in order, marks the head RUNNING and hands control to it; the old queue is the head's entry followed by the new queue |
| Coroutine.Scheduler.Resume | l_coroutine.c:187-202 | one turn of `foo` in the running task t: with yields left it prints its argument, yields and is requeued with one yield fewer; otherwise it calls `task_exit` and the queue is unchanged |
| Coroutine.Scheduler.Dispatch | l_coroutine.c:166-183 | one iteration of the loop: the head is popped and resumed, the rest of the list keeps its order, the head is requeued or marked exited. Trace, output, count and queue move by exactly one step of the simulation (`Turn`, `Observed`, `Enqueued`, `Next`) |
| Coroutine.Scheduler.Schedule | l_coroutine.c:159-185 | ends exactly with the list empty. The trace and output are those of the simulation of the list on entry, and `task_size` grows by the number of yields. Every task in the list ends EXIT with no yields left and its argument and stack size unchanged; every other block is unchanged |
| Coroutine.DrainedStep | l_coroutine.c:166-183 | one iteration of the loop keeps what `Schedule` promises about the blocks: none is added or removed, the list holds only tasks that were in it on entry, a listed task keeps its argument and stack size, a task that left the list has exited with no yields left, and a task never listed is untouched |
| Coroutine.Scheduler.FreeTask | l_coroutine.c:153 | frees one block that has not been freed before |
| Coroutine.Scheduler.Close | l_coroutine.c:146-157 | frees each task still in the list exactly once and then the scheduler. The freed set is exactly the list's tasks, so an empty list frees no task. The blocks left allocated number the tasks minus the list's length |
| Coroutine.TwoTaskDemo | l_coroutine.c:187-214 | two tasks with arguments 44 and 66, each yielding ten times: the printed values alternate 44, 66 (20 values, 44 at even positions), the tasks are resumed in creation order 11 times over, 20 enqueues are counted, and the trace ends with both exits in creation order |
| Coroutine.OneTaskDemo | l_coroutine.c:187-214 | the demo when only the second task exists: 66 printed ten times, resumed eleven times, 10 enqueues |
| Coroutine.RunAndClose | l_coroutine.c:211-217 | the tail of `main`: when the second create succeeded, the printed values are the simulation's output of the list and `task_size` grows by its pending yields, and every task block is left allocated. Otherwise nothing is printed and the blocks left allocated are those not in the list |
| Coroutine.RunDemo | l_coroutine.c:204-219 | `main`: a failed open aborts. If the second create fails nothing is printed and nothing is leaked. Otherwise the printed values are 44, 66 alternating (or 66 alone when the first create failed), `task_size` ends at 22 (or 11), and both task blocks (or the one) are left allocated after close |
| Simulation.Simulate | l_coroutine.c:166-183 | the reference trace of the ready list: the head's turn (`Turn`) followed by the trace of the queue after it (`Next`). It has exactly one turn per pending yield plus one exit per task |
| Simulation.TurnStep | l_coroutine.c:166-183 | one scheduler turn: the trace, output and enqueue count so far plus what the queue will still do are the same before and after the turn, and the work left strictly decreases |
| Simulation.YieldTurn | l_coroutine.c:100-106 | a yielding head prints its argument, is requeued at the tail with one yield fewer, and one enqueue is counted |
| Simulation.ExitTurn | l_coroutine.c:116-118 | an exiting head prints nothing, leaves the queue and counts no enqueue |
| Simulation.YieldPass | l_coroutine.c:170-174 | tasks at the front that all have yields pending each take one turn in queue order and are requeued at the tail in the same order |
| Simulation.ExitPass | l_coroutine.c:170-178 | tasks at the front with no yields pending each exit in queue order and are gone from the queue |
| Simulation.RoundRobin | l_coroutine.c:170-174 | FIFO round robin: when every task has k yields pending, the trace is k passes of yields in queue order followed by one pass of exits in queue order |
| Simulation.RoundsResumed | l_coroutine.c:170-174 | the round-robin trace resumes the tasks in creation order, k + 1 times over |
| Simulation.RoundsPrinted | l_coroutine.c:194-196 | the round-robin trace prints each pass's arguments in creation order, k times over |
| Simulation.RoundsEnd | l_coroutine.c:199 | the round-robin trace ends with every task exiting, in creation order |
| Simulation.PrintedLength | l_coroutine.c:194-196 | one printed value per pending yield |
| Simulation.AbsentNeverResumed | l_coroutine.c:170-178 | a task that is not in the list never receives control |
| Simulation.ResumptionCount | l_coroutine.c:166-178 | with distinct tasks, each task receives control exactly once per pending yield plus once to exit |
| Simulation.ExitIsFinal | l_coroutine.c:116-118 | a task that has exited never receives control again |
| Simulation.RepeatPairAt | l_coroutine.c:194-196 | a repeated pair alternates its two values, which gives the demo's 44, 66 alternation |

## Left out

- `getcontext`, `makecontext`, `swapcontext` and `ucontext_t` are platform context-switch primitives. They are modelled only as the transfer of control to a task and back. The failure of a swap is not modelled: in `schedule` it is a fatal assertion (line 180), and the return values of `task_yield` and `task_exit` are not modelled.
- `task_start` and the user function are arbitrary code. A task's function is the script "yield k times, then exit" that `foo` follows. A function that returns without calling `task_exit` is not modelled, because returning from the context's entry point has no successor context set in the source.
- The non-null assertions on the scheduler, function and argument (lines 60-62) hold by the parameter types. A NULL scheduler from a failed `open_coroutine` in `main` is modelled as an abort.
- The argument is a pointer to an `int`. The model keeps the value it points to, which `foo` reads.
- `printf` is modelled as appending the printed value to `output`. Formatting and the getcontext failure message are not modelled.
- The single allocation holding the control block and its stack (lines 67, 83), and the stack size's effect on memory, are not modelled. `free` is modelled as adding the block to the set of freed blocks. Address reuse is not modelled: handles are fresh ids from a counter.
- The internals of `list.h` are not part of this model. The intrusive list is a sequence of task ids.
- `task_size` is a C `int` that only grows (lines 91, 104), so a long enough run would overflow it, which is undefined behaviour. The model's counter is an unbounded integer. Nothing in the source reads the counter.
- `TASK_DEAD` is declared but never assigned in the source, so the model never assigns it.
