/**
  The bookkeeping of the l_coroutine scheduler: its FIFO ready list, its
  enqueue counter and the status of each task, changed in place by
  task_create, task_yield, task_exit, schedule and close_coroutine.

  Task handles are abstract ids handed out by a counter. The intrusive list
  of control blocks is a sequence of ids, and the control blocks are a map
  from id to block. The machine-level context switch is the `running` field:
  schedule sets it when it hands control to a task, and a task clears it
  when it yields or exits, giving control back. A task's function is a
  script "yield k times, then exit"; what it prints before each yield is
  appended to `output`.
*/
module Coroutine {

  import opened Wrappers
  import opened Simulation

  /** task_status_t */
  datatype Status = Dead | Ready | Running | Exit

  /**
    A task control block: the value its argument points to, its stack size,
    its status field (None while it has never been written) and the number
    of yields its function will still make before it calls task_exit.
  */
  datatype Task = Task(arg: int, stackSize: nat, status: Option<Status>, left: nat)

  /** DEFAULT_STACK_SIZE: 32 KiB. */
  const DefaultStackSize: nat := 32 * 1024

  /** The number of times the demo's function prints and yields before it exits. */
  const DemoYields: nat := 10

  ghost predicate Distinct(s: seq<TaskId>)
  {
    forall i, j :: 0 <= i < j < |s| ==> s[i] != s[j]
  }

  lemma DistinctAppend(s: seq<TaskId>, x: TaskId)
    requires Distinct(s) && x !in s
    ensures Distinct(s + [x])
  {
  }

  /** Writing a key twice leaves only the second write. */
  lemma UpdateTwice(m: map<TaskId, Task>, k: TaskId, x: Task, y: Task)
    ensures m[k := x][k := y] == m[k := y]
  {
  }

  /** A block that may sit in the ready list: freshly created (status unwritten) or ready. */
  predicate Waiting(b: Task)
  {
    b.status == None || b.status == Some(Ready)
  }

  /** The ready list seen as queue entries of the simulation. */
  function EntriesOf(ids: seq<TaskId>, tasks: map<TaskId, Task>): seq<Entry>
    requires forall t :: t in ids ==> t in tasks
  {
    seq(|ids|, i requires 0 <= i < |ids| => Entry(ids[i], tasks[ids[i]].arg, tasks[ids[i]].left))
  }

  /** Removing the head of the list removes the head entry of the queue. */
  lemma EntriesTail(ids: seq<TaskId>, tasks: map<TaskId, Task>, b: Task)
    requires ids != [] && ids[0] !in ids[1..] && forall t :: t in ids ==> t in tasks
    ensures EntriesOf(ids, tasks)
         == [Entry(ids[0], tasks[ids[0]].arg, tasks[ids[0]].left)] + EntriesOf(ids[1..], tasks[ids[0] := b])
  {
  }

  /** Appending a task that is not yet in the list appends its entry and leaves the others as they were. */
  lemma EntriesAppend(ids: seq<TaskId>, tasks: map<TaskId, Task>, t: TaskId, b: Task)
    requires t !in ids && forall u :: u in ids ==> u in tasks
    ensures EntriesOf(ids + [t], tasks[t := b]) == EntriesOf(ids, tasks) + [Entry(t, b.arg, b.left)]
    ensures EntriesOf(ids, tasks[t := b]) == EntriesOf(ids, tasks)
  {
  }

  /**
    What schedule has done so far to the blocks of list0/tasks0, now
    list/tasks: no block was added or removed, the list holds only tasks
    that were in it, a task still listed keeps its argument and stack, a task
    that left the list has exited with no yields left, and a task that was
    never listed is untouched.
  */
  ghost predicate Drained(list0: seq<TaskId>, tasks0: map<TaskId, Task>, list: seq<TaskId>, tasks: map<TaskId, Task>)
  {
    && tasks.Keys == tasks0.Keys
    && (forall t :: t in list ==> t in list0)
    && (forall t :: t in list && t in tasks ==>
          tasks[t].arg == tasks0[t].arg && tasks[t].stackSize == tasks0[t].stackSize)
    && (forall t :: t in list0 && t !in list && t in tasks ==>
          tasks[t] == tasks0[t].(status := Some(Exit), left := 0))
    && (forall t :: t in tasks && t !in list0 ==> tasks[t] == tasks0[t])
  }

  /** One iteration of schedule's loop, as Dispatch states it, keeps Drained. */
  lemma DrainedStep(list0: seq<TaskId>, tasks0: map<TaskId, Task>,
                    list: seq<TaskId>, tasks: map<TaskId, Task>,
                    list': seq<TaskId>, tasks': map<TaskId, Task>)
    requires Drained(list0, tasks0, list, tasks)
    requires list != [] && list[0] in tasks && Distinct(list)
    requires var t := list[0]; var b := tasks[t];
      && list' == list[1..] + (if b.left > 0 then [t] else [])
      && tasks' == tasks[t := if b.left > 0 then b.(status := Some(Ready), left := b.left - 1)
                              else b.(status := Some(Exit))]
    ensures Drained(list0, tasks0, list', tasks')
  {
    var t := list[0];
    assert t !in list[1..];
    assert t in list0;
  }

  class Scheduler {
    /** task_list: the ready list, head first. */
    var taskList: seq<TaskId>
    /** task_size: incremented on every enqueue, never decremented. */
    var taskSize: int
    /** The task control is inside of, or None while the scheduler's own context runs. */
    var running: Option<TaskId>
    /** The control block of every task created. */
    var tasks: map<TaskId, Task>
    /** The task control blocks that have been freed. */
    var freed: set<TaskId>
    /** Whether the scheduler block itself has been freed. */
    var released: bool
    /** The next handle to give out. */
    var nextId: TaskId
    /** What each turn of control did, in order. */
    var trace: seq<Event>
    /** The values the task functions printed, in order. */
    var output: seq<int>

    ghost predicate Valid()
      reads this
    {
      && !released
      && freed == {}
      && (forall t :: t in tasks ==> t < nextId)
      && Distinct(taskList)
      && (forall t :: t in taskList ==> t in tasks && Waiting(tasks[t]))
      && (running.Some? ==>
            && running.value in tasks
            && running.value !in taskList
            && tasks[running.value].status == Some(Running))
      && (forall t :: t in tasks && tasks[t].status == Some(Running) ==> running == Some(t))
      && (forall t :: t in tasks && tasks[t].status == Some(Ready) ==> t in taskList)
    }

    /** The ready list as a queue of the simulation. */
    ghost function Queue(): seq<Entry>
      reads this
      requires Valid()
    {
      EntriesOf(taskList, tasks)
    }

    /** The scheduler block as open_coroutine initialises it: an empty list and a zero count. */
    constructor ()
      ensures Valid()
      ensures taskList == [] && taskSize == 0 && running == None
      ensures tasks == map[] && nextId == 0 && trace == [] && output == []
    {
      taskList := [];
      taskSize := 0;
      running := None;
      tasks := map[];
      freed := {};
      released := false;
      nextId := 0;
      trace := [];
      output := [];
    }

    /**
      open_coroutine: allocates the scheduler block; a failed allocation
      (allocOk false) yields NULL.
    */
    static method Open(allocOk: bool) returns (s: Scheduler?)
      ensures allocOk <==> s != null
      ensures s != null ==> fresh(s) && s.Valid()
      ensures s != null ==> s.taskList == [] && s.taskSize == 0 && s.running == None
      ensures s != null ==> s.tasks == map[] && s.trace == [] && s.output == []
    {
      if !allocOk {
        return null;
      }
      s := new Scheduler();
    }

    /**
      task_create. The scheduler, function and argument are non-null by their
      types; a zero stack size fails an assertion. allocOk says whether malloc
      succeeds and contextOk whether getcontext does; either failure returns
      NULL and leaves the scheduler as it was. `work` is the number of yields
      the task's function makes before it calls task_exit. The new block's
      status field is not written.
    */
    method CreateTask(work: nat, arg: int, stackSize: nat, allocOk: bool, contextOk: bool)
      returns (t: Option<TaskId>)
      requires Valid()
      requires stackSize > 0
      modifies this`taskList, this`taskSize, this`tasks, this`nextId
      ensures Valid()
      ensures t.Some? <==> allocOk && contextOk
      ensures t.None? ==> taskList == old(taskList) && taskSize == old(taskSize) && tasks == old(tasks)
      ensures t.Some? ==>
        && t.value !in old(tasks)
        && taskList == old(taskList) + [t.value]
        && taskSize == old(taskSize) + 1
        && tasks == old(tasks)[t.value := Task(arg, stackSize, None, work)]
    {
      if !allocOk {
        return None;
      }
      var id := nextId;
      var block := Task(arg, stackSize, None, work);
      if !contextOk {
        // getcontext failed: the block is freed before it is linked anywhere
        return None;
      }
      assert id !in taskList;
      DistinctAppend(taskList, id);
      nextId := nextId + 1;
      tasks := tasks[id := block];
      taskList := taskList + [id];
      taskSize := taskSize + 1;
      t := Some(id);
    }

    /**
      task_yield, called by the running task t: marks it ready, appends it to
      the tail of the list, counts the enqueue and gives control back to the
      scheduler.
    */
    method YieldTask(t: TaskId)
      requires Valid() && running == Some(t)
      modifies this`taskList, this`taskSize, this`tasks, this`running
      ensures Valid() && running == None
      ensures tasks == old(tasks)[t := old(tasks)[t].(status := Some(Ready))]
      ensures taskList == old(taskList) + [t]
      ensures taskSize == old(taskSize) + 1
    {
      tasks := tasks[t := tasks[t].(status := Some(Ready))];
      taskList := taskList + [t];
      taskSize := taskSize + 1;
      running := None;
    }

    /**
      task_exit, called by the running task t: marks it exited and gives
      control back to the scheduler. The list and task_size are untouched, so
      the task is not in the list and will not be handed control again.
    */
    method ExitTask(t: TaskId)
      requires Valid() && running == Some(t)
      modifies this`tasks, this`running
      ensures Valid() && running == None
      ensures tasks == old(tasks)[t := old(tasks)[t].(status := Some(Exit))]
      ensures taskList == old(taskList) && taskSize == old(taskSize)
      ensures t !in taskList
    {
      tasks := tasks[t := tasks[t].(status := Some(Exit))];
      running := None;
    }

    /**
      The part of one iteration of schedule up to the switch: unlink the
      head of the list, mark it running and hand control to it. The rest of
      the list keeps its order.
    */
    method PopHead() returns (t: TaskId)
      requires Valid() && running == None && taskList != []
      modifies this`taskList, this`tasks, this`running
      ensures Valid() && running == Some(t)
      ensures t == old(taskList)[0] && taskList == old(taskList)[1..]
      ensures tasks == old(tasks)[t := old(tasks)[t].(status := Some(Running))]
      ensures t in tasks && t !in taskList
      ensures old(Queue()) == [Entry(t, tasks[t].arg, tasks[t].left)] + Queue()
    {
      EntriesTail(taskList, tasks, tasks[taskList[0]].(status := Some(Running)));
      t := taskList[0];
      taskList := taskList[1..];
      tasks := tasks[t := tasks[t].(status := Some(Running))];
      running := Some(t);
    }

    /**
      Task t's own code, from the switch into it until it gives control
      back: it prints its argument and yields while yields remain, and
      otherwise calls task_exit.
    */
    method Resume(t: TaskId)
      requires Valid() && running == Some(t)
      modifies this`taskList, this`taskSize, this`tasks, this`running, this`trace, this`output
      ensures Valid() && running == None
      ensures var b := old(tasks)[t]; b.left > 0 ==>
        && trace == old(trace) + [Yielded(t, b.arg)]
        && output == old(output) + [b.arg]
        && tasks == old(tasks)[t := b.(status := Some(Ready), left := b.left - 1)]
        && taskList == old(taskList) + [t]
        && taskSize == old(taskSize) + 1
        && Queue() == old(Queue()) + [Entry(t, b.arg, b.left - 1)]
      ensures var b := old(tasks)[t]; b.left == 0 ==>
        && trace == old(trace) + [Exited(t)]
        && output == old(output)
        && tasks == old(tasks)[t := b.(status := Some(Exit))]
        && taskList == old(taskList)
        && taskSize == old(taskSize)
        && Queue() == old(Queue())
    {
      var b := tasks[t];
      if b.left > 0 {
        output := output + [b.arg];
        tasks := tasks[t := b.(left := b.left - 1)];
        trace := trace + [Yielded(t, b.arg)];
        YieldTask(t);
        EntriesAppend(old(taskList), old(tasks), t, tasks[t]);
      } else {
        trace := trace + [Exited(t)];
        ExitTask(t);
        EntriesAppend(old(taskList), old(tasks), t, tasks[t]);
      }
    }

    /**
      One iteration of schedule's loop: the head of the list gets one turn of
      control. The turn is the first step of the simulation of the list, and
      what remains of the trace is the simulation of the new list.
    */
    method Dispatch()
      requires Valid() && running == None && taskList != []
      modifies this`taskList, this`taskSize, this`tasks, this`running, this`trace, this`output
      ensures Valid() && running == None
      ensures var t := old(taskList)[0]; var b := old(tasks)[t];
        && taskList == old(taskList)[1..] + (if b.left > 0 then [t] else [])
        && tasks == old(tasks)[t := if b.left > 0 then b.(status := Some(Ready), left := b.left - 1)
                                    else b.(status := Some(Exit))]
      ensures trace == old(trace) + [Turn(old(Queue())[0])]
      ensures output == old(output) + Observed(old(Queue())[0])
      ensures taskSize == old(taskSize) + Enqueued(old(Queue())[0])
      ensures Queue() == Next(old(Queue()))
    {
      ghost var q := Queue();
      ghost var b := tasks[taskList[0]];
      var t := PopHead();
      ghost var rest := Queue();
      assert q[0] == Entry(t, b.arg, b.left) && q[1..] == rest;
      Resume(t);
      if b.left > 0 {
        UpdateTwice(old(tasks), t, b.(status := Some(Running)), b.(status := Some(Ready), left := b.left - 1));
      } else {
        UpdateTwice(old(tasks), t, b.(status := Some(Running)), b.(status := Some(Exit)));
      }
    }

    /**
      schedule: repeatedly takes the head of the list and hands control to
      it, until the list is empty. The turns follow the simulation of the
      list as it stood on entry; every task that was in it ends up exited
      and still allocated, and task_size grows by the number of yields.
    */
    method Schedule()
      requires Valid() && running == None
      modifies this`taskList, this`taskSize, this`tasks, this`running, this`trace, this`output
      ensures Valid() && running == None && taskList == []
      ensures trace == old(trace) + Simulate(old(Queue()))
      ensures output == old(output) + Printed(Simulate(old(Queue())))
      ensures taskSize == old(taskSize) + Pending(old(Queue()))
      ensures tasks.Keys == old(tasks).Keys
      ensures forall t :: t in old(taskList) ==> tasks[t] == old(tasks)[t].(status := Some(Exit), left := 0)
      ensures forall t :: t in tasks && t !in old(taskList) ==> tasks[t] == old(tasks)[t]
    {
      ghost var q0, list0, tasks0 := Queue(), taskList, tasks;
      while taskList != []
        invariant Valid() && running == None
        invariant old(trace) + Simulate(q0) == trace + Simulate(Queue())
        invariant old(output) + Printed(Simulate(q0)) == output + Printed(Simulate(Queue()))
        invariant old(taskSize) + Pending(q0) == taskSize + Pending(Queue())
        invariant Drained(list0, tasks0, taskList, tasks)
        decreases Work(Queue())
      {
        ghost var q, trace0, output0, size0 := Queue(), trace, output, taskSize;
        ghost var list1, tasks1 := taskList, tasks;
        Dispatch();
        TurnStep(q, trace0, output0, size0);
        DrainedStep(list0, tasks0, list1, tasks1, taskList, tasks);
      }
    }

    /** Frees one task control block; freeing a block twice is not possible. */
    method FreeTask(t: TaskId)
      requires t !in freed
      modifies this`freed
      ensures freed == old(freed) + {t}
    {
      freed := freed + {t};
    }

    /**
      close_coroutine: frees every task still in the list, each exactly once,
      and then the scheduler block. Tasks no longer in the list are not freed,
      so the blocks left allocated are exactly those of tasks that left it.
    */
    method Close()
      requires Valid()
      modifies this`freed, this`released
      ensures released
      ensures freed == set t | t in taskList
      ensures |freed| == |taskList|
      ensures |tasks.Keys - freed| == |tasks| - |taskList|
    {
      var i := 0;
      while i < |taskList|
        modifies this`freed
        invariant 0 <= i <= |taskList|
        invariant Distinct(taskList)
        invariant freed == set t | t in taskList[..i]
        invariant |freed| == i
      {
        var t := taskList[i];
        assert t !in taskList[..i];
        assert taskList[..i + 1] == taskList[..i] + [t];
        FreeTask(t);
        i := i + 1;
      }
      assert taskList[..i] == taskList;
      assert freed <= tasks.Keys;
      released := true;
    }
  }

  /**
    The demo's two tasks, arguments 44 and 66, each printing and yielding ten
    times before exiting: the printed values alternate 44, 66, the tasks are
    resumed in creation order eleven times over, and both exit in creation
    order at the end.
  */
  lemma TwoTaskDemo(a: TaskId, b: TaskId)
    ensures var q := [Entry(a, 44, DemoYields), Entry(b, 66, DemoYields)];
      && Printed(Simulate(q)) == Repeat([44, 66], DemoYields)
      && |Printed(Simulate(q))| == 2 * DemoYields
      && (forall i :: 0 <= i < 2 * DemoYields ==> Printed(Simulate(q))[i] == if i % 2 == 0 then 44 else 66)
      && Resumed(Simulate(q)) == Repeat([a, b], DemoYields + 1)
      && Pending(q) == 2 * DemoYields
      && Simulate(q)[|Simulate(q)| - 2..] == [Exited(a), Exited(b)]
  {
    var q := [Entry(a, 44, DemoYields), Entry(b, 66, DemoYields)];
    RoundRobin(q, DemoYields);
    RoundsResumed(q, DemoYields);
    RoundsPrinted(q, DemoYields);
    RoundsEnd(q, DemoYields);
    PrintedLength(q);
    assert Args(q) == [44, 66];
    assert Tasks(q) == [a, b];
    assert ExitAll(q) == [Exited(a), Exited(b)];
    forall i | 0 <= i < 2 * DemoYields
      ensures Repeat([44, 66], DemoYields)[i] == if i % 2 == 0 then 44 else 66
    {
      RepeatPairAt(44, 66, DemoYields, i);
    }
  }

  /** The demo when only the second task was created: it prints 66 ten times and exits. */
  lemma OneTaskDemo(b: TaskId)
    ensures var q := [Entry(b, 66, DemoYields)];
      && Printed(Simulate(q)) == Repeat([66], DemoYields)
      && Resumed(Simulate(q)) == Repeat([b], DemoYields + 1)
      && Pending(q) == DemoYields
  {
    var q := [Entry(b, 66, DemoYields)];
    RoundRobin(q, DemoYields);
    RoundsResumed(q, DemoYields);
    RoundsPrinted(q, DemoYields);
    PrintedLength(q);
    assert Args(q) == [66];
    assert Tasks(q) == [b];
  }

  /**
    The tail of main: schedule the tasks unless the second creation failed,
    then close the scheduler. Returns what was printed, the final task_size
    and the number of task blocks left allocated.
  */
  method RunAndClose(s: Scheduler, run: bool) returns (printed: seq<int>, size: int, leaked: nat)
    requires s.Valid() && s.running == None && s.output == []
    modifies s`taskList, s`taskSize, s`tasks, s`running, s`trace, s`output, s`freed, s`released
    ensures printed == if run then Printed(Simulate(old(s.Queue()))) else []
    ensures size == old(s.taskSize) + if run then Pending(old(s.Queue())) else 0
    ensures leaked == |old(s.tasks)| - if run then 0 else |old(s.taskList)|
  {
    if run {
      s.Schedule();
    }
    printed := s.output;
    size := s.taskSize;
    s.Close();
    leaked := |s.tasks.Keys - s.freed|;
  }

  /**
    main: opens a scheduler, creates a task with argument 44 and one with
    argument 66, each running foo (print the argument and yield, ten times,
    then exit), schedules them if the second creation succeeded, and closes
    the scheduler. The flags say whether open_coroutine and each task_create
    succeed; a failed open makes task_create's assertion abort. Returns what
    was printed, the final task_size and the number of task blocks left
    allocated after close_coroutine.
  */
  method RunDemo(openOk: bool, firstOk: bool, secondOk: bool)
    returns (aborted: bool, printed: seq<int>, size: int, leaked: nat)
    ensures aborted <==> !openOk
    ensures openOk && !secondOk ==> printed == [] && leaked == 0 && size == (if firstOk then 1 else 0)
    ensures openOk && secondOk && !firstOk ==>
      printed == Repeat([66], DemoYields) && size == 1 + DemoYields && leaked == 1
    ensures openOk && secondOk && firstOk ==>
      printed == Repeat([44, 66], DemoYields) && size == 2 + 2 * DemoYields && leaked == 2
  {
    var s := Scheduler.Open(openOk);
    if s == null {
      return true, [], 0, 0;
    }
    aborted := false;
    var a := s.CreateTask(DemoYields, 44, DefaultStackSize, firstOk, true);
    var b := s.CreateTask(DemoYields, 66, DefaultStackSize, secondOk, true);
    ghost var q := s.Queue();
    if b.Some? {
      if a.Some? {
        assert q == [Entry(a.value, 44, DemoYields), Entry(b.value, 66, DemoYields)];
        TwoTaskDemo(a.value, b.value);
      } else {
        assert q == [Entry(b.value, 66, DemoYields)];
        OneTaskDemo(b.value);
      }
    }
    printed, size, leaked := RunAndClose(s, b.Some?);
  }
}
