/**
  A pure simulation of the cooperative scheduler's ready list.

  Every task runs a script of the shape "yield k times, then exit". A queue
  entry records the task, the value its argument points to and the number of
  yields its code still has to make. One turn of the scheduler takes the head
  of the queue and hands control to it: the task either yields (and is put
  back at the tail with one yield fewer) or exits (and is gone for good).
  `Simulate` produces the trace of what every turn did.
*/
module Simulation {

  type TaskId = nat

  /** A task waiting in the ready list. */
  datatype Entry = Entry(task: TaskId, arg: int, left: nat)

  /** What a task did with one turn of control. A yielding turn observes the task's argument. */
  datatype Event = Yielded(task: TaskId, arg: int) | Exited(task: TaskId)

  /** The number of turns the queue still needs: one per pending yield plus one exit per task. */
  function Work(q: seq<Entry>): nat
  {
    if q == [] then 0 else q[0].left + 1 + Work(q[1..])
  }

  /** The number of yields still pending in the queue. */
  function Pending(q: seq<Entry>): nat
  {
    if q == [] then 0 else q[0].left + Pending(q[1..])
  }

  lemma {:induction false} WorkAppend(a: seq<Entry>, b: seq<Entry>)
    ensures Work(a + b) == Work(a) + Work(b)
    ensures Pending(a + b) == Pending(a) + Pending(b)
  {
    if a == [] {
      assert a + b == b;
    } else {
      assert (a + b)[1..] == a[1..] + b;
      WorkAppend(a[1..], b);
    }
  }

  /** The entry a yielding head goes back into the queue as. */
  function Requeued(e: Entry): Entry
    requires e.left > 0
  {
    Entry(e.task, e.arg, e.left - 1)
  }

  /** What the head of the queue does with its turn of control. */
  function Turn(e: Entry): Event
  {
    if e.left > 0 then Yielded(e.task, e.arg) else Exited(e.task)
  }

  /** What the head's turn prints: its argument when it yields, nothing when it exits. */
  function Observed(e: Entry): seq<int>
  {
    if e.left > 0 then [e.arg] else []
  }

  /** The number of enqueues the head's turn makes: one when it yields, none when it exits. */
  function Enqueued(e: Entry): nat
  {
    if e.left > 0 then 1 else 0
  }

  /** The queue after its head's turn: a yielding head is requeued at the tail, an exiting one is gone. */
  function Next(q: seq<Entry>): seq<Entry>
    requires q != []
  {
    q[1..] + (if q[0].left > 0 then [Requeued(q[0])] else [])
  }

  /** The trace of the scheduler's turns, from this queue until the queue is empty. */
  function Simulate(q: seq<Entry>): (trace: seq<Event>)
    ensures |trace| == Work(q)
    decreases Work(q)
  {
    if q == [] then []
    else
      WorkAppend(q[1..], if q[0].left > 0 then [Requeued(q[0])] else []);
      [Turn(q[0])] + Simulate(Next(q))
  }

  /** The values observed, in order, by the yielding turns of a trace. */
  function Printed(trace: seq<Event>): seq<int>
  {
    if trace == [] then []
    else (if trace[0].Yielded? then [trace[0].arg] else []) + Printed(trace[1..])
  }

  /** The order in which tasks received control. */
  function Resumed(trace: seq<Event>): seq<TaskId>
  {
    seq(|trace|, i requires 0 <= i < |trace| => trace[i].task)
  }

  /** How many turns of the trace went to task t. */
  function Count(trace: seq<Event>, t: TaskId): nat
  {
    if trace == [] then 0
    else (if trace[0].task == t then 1 else 0) + Count(trace[1..], t)
  }

  function Tasks(q: seq<Entry>): seq<TaskId>
  {
    seq(|q|, i requires 0 <= i < |q| => q[i].task)
  }

  function Args(q: seq<Entry>): seq<int>
  {
    seq(|q|, i requires 0 <= i < |q| => q[i].arg)
  }

  function Repeat<T>(s: seq<T>, k: nat): seq<T>
  {
    if k == 0 then [] else s + Repeat(s, k - 1)
  }

  ghost predicate DistinctTasks(q: seq<Entry>)
  {
    forall i, j :: 0 <= i < j < |q| ==> q[i].task != q[j].task
  }

  /** One pass in which every task of the queue yields once. */
  function YieldAll(q: seq<Entry>): seq<Event>
  {
    seq(|q|, i requires 0 <= i < |q| => Yielded(q[i].task, q[i].arg))
  }

  /** One pass in which every task of the queue exits. */
  function ExitAll(q: seq<Entry>): seq<Event>
  {
    seq(|q|, i requires 0 <= i < |q| => Exited(q[i].task))
  }

  /** The queue after every entry has yielded once. */
  function Decremented(q: seq<Entry>): seq<Entry>
    requires forall i :: 0 <= i < |q| ==> q[i].left > 0
  {
    seq(|q|, i requires 0 <= i < |q| => Requeued(q[i]))
  }

  /** Round-robin trace: k passes of yields in queue order, then one pass of exits in queue order. */
  function Rounds(q: seq<Entry>, k: nat): seq<Event>
  {
    if k == 0 then ExitAll(q) else YieldAll(q) + Rounds(q, k - 1)
  }

  lemma {:induction false} PrintedAppend(a: seq<Event>, b: seq<Event>)
    ensures Printed(a + b) == Printed(a) + Printed(b)
  {
    if a == [] {
      assert a + b == b;
    } else {
      var h := if a[0].Yielded? then [a[0].arg] else [];
      assert (a + b)[0] == a[0] && (a + b)[1..] == a[1..] + b;
      PrintedAppend(a[1..], b);
      calc {
        Printed(a + b);
        h + Printed(a[1..] + b);
        h + (Printed(a[1..]) + Printed(b));
        (h + Printed(a[1..])) + Printed(b);
        Printed(a) + Printed(b);
      }
    }
  }

  /** A task with no turn in a trace appears nowhere in it. */
  lemma {:induction false} CountZero(trace: seq<Event>, t: TaskId, j: nat)
    requires Count(trace, t) == 0 && j < |trace|
    ensures trace[j].task != t
  {
    if j > 0 {
      CountZero(trace[1..], t, j - 1);
    }
  }

  /** The first turn goes to the head of the queue; a yielding head is requeued at the tail. */
  lemma SimulateYield(q: seq<Entry>)
    requires q != [] && q[0].left > 0
    ensures Simulate(q) == [Yielded(q[0].task, q[0].arg)] + Simulate(q[1..] + [Requeued(q[0])])
  {
    assert Next(q) == q[1..] + [Requeued(q[0])];
  }

  /** An exiting head takes the first turn and leaves the queue. */
  lemma SimulateExit(q: seq<Entry>)
    requires q != [] && q[0].left == 0
    ensures Simulate(q) == [Exited(q[0].task)] + Simulate(q[1..])
  {
    assert Next(q) == q[1..];
  }

  /**
    One turn of the scheduler. Whatever was traced, printed and counted
    before the turn, followed by what the queue will still do, is the same
    before and after the turn, and the work left shrinks.
  */
  lemma {:induction false} TurnStep(q: seq<Entry>, done: seq<Event>, printed: seq<int>, size: int)
    requires q != []
    ensures done + Simulate(q) == (done + [Turn(q[0])]) + Simulate(Next(q))
    ensures printed + Printed(Simulate(q)) == (printed + Observed(q[0])) + Printed(Simulate(Next(q)))
    ensures size + Pending(q) == (size + Enqueued(q[0])) + Pending(Next(q))
    ensures Work(Next(q)) < Work(q)
  {
    if q[0].left > 0 {
      YieldTurn(q, done, printed, size);
    } else {
      assert Next(q) == q[1..];
      ExitTurn(q, done, printed, size);
    }
  }

  /** The turn of a head with yields pending: it prints its argument and is requeued with one yield fewer. */
  lemma {:induction false} YieldTurn(q: seq<Entry>, done: seq<Event>, printed: seq<int>, size: int)
    requires q != [] && q[0].left > 0
    ensures var q' := q[1..] + [Requeued(q[0])];
      && done + Simulate(q) == (done + [Yielded(q[0].task, q[0].arg)]) + Simulate(q')
      && printed + Printed(Simulate(q)) == (printed + [q[0].arg]) + Printed(Simulate(q'))
      && size + Pending(q) == (size + 1) + Pending(q')
      && Work(q') < Work(q)
  {
    var q' := q[1..] + [Requeued(q[0])];
    SimulateYield(q);
    WorkAppend(q[1..], [Requeued(q[0])]);
    PrintedAppend([Yielded(q[0].task, q[0].arg)], Simulate(q'));
  }

  /** The turn of a head with no yields pending: it exits, prints nothing and leaves the queue. */
  lemma {:induction false} ExitTurn(q: seq<Entry>, done: seq<Event>, printed: seq<int>, size: int)
    requires q != [] && q[0].left == 0
    ensures done + Simulate(q) == (done + [Exited(q[0].task)]) + Simulate(q[1..])
    ensures printed + Printed(Simulate(q)) == printed + Printed(Simulate(q[1..]))
    ensures size + Pending(q) == size + Pending(q[1..])
    ensures Work(q[1..]) < Work(q)
  {
    SimulateExit(q);
    PrintedAppend([Exited(q[0].task)], Simulate(q[1..]));
  }

  /**
    While every task at the front still has yields pending, the scheduler
    hands each of them one turn in queue order and puts each back at the tail.
  */
  lemma {:induction false} YieldPass(p: seq<Entry>, r: seq<Entry>)
    requires forall i :: 0 <= i < |p| ==> p[i].left > 0
    ensures Simulate(p + r) == YieldAll(p) + Simulate(r + Decremented(p))
  {
    if p == [] {
      assert p + r == r;
      assert r + Decremented(p) == r;
      assert YieldAll(p) == [];
    } else {
      var e := p[0];
      var d := Requeued(e);
      assert (p + r)[0] == e;
      assert (p + r)[1..] + [d] == p[1..] + (r + [d]);
      SimulateYield(p + r);
      assert Simulate(p + r) == [Yielded(e.task, e.arg)] + Simulate(p[1..] + (r + [d]));
      YieldPass(p[1..], r + [d]);
      assert r + [d] + Decremented(p[1..]) == r + Decremented(p);
      assert YieldAll(p) == [Yielded(e.task, e.arg)] + YieldAll(p[1..]);
    }
  }

  /** Tasks at the front with no yields pending each get one turn, exit, and leave the queue. */
  lemma {:induction false} ExitPass(p: seq<Entry>, r: seq<Entry>)
    requires forall i :: 0 <= i < |p| ==> p[i].left == 0
    ensures Simulate(p + r) == ExitAll(p) + Simulate(r)
  {
    if p == [] {
      assert p + r == r;
      assert ExitAll(p) == [];
    } else {
      var e := p[0];
      var pr := p + r;
      assert pr[0] == e && pr[1..] == p[1..] + r;
      SimulateExit(pr);
      ExitPass(p[1..], r);
      calc {
        Simulate(pr);
        [Exited(e.task)] + Simulate(p[1..] + r);
        [Exited(e.task)] + (ExitAll(p[1..]) + Simulate(r));
        ([Exited(e.task)] + ExitAll(p[1..])) + Simulate(r);
        { assert ExitAll(p) == [Exited(e.task)] + ExitAll(p[1..]); }
        ExitAll(p) + Simulate(r);
      }
    }
  }

  lemma {:induction false} RoundsIgnoreLeft(q: seq<Entry>, k: nat)
    requires forall i :: 0 <= i < |q| ==> q[i].left > 0
    ensures Rounds(Decremented(q), k) == Rounds(q, k)
  {
    assert YieldAll(Decremented(q)) == YieldAll(q);
    assert ExitAll(Decremented(q)) == ExitAll(q);
    if k > 0 {
      RoundsIgnoreLeft(q, k - 1);
    }
  }

  /**
    FIFO round robin: when every task in the queue has the same k yields
    pending, the trace is k passes of yields in queue order followed by one
    pass of exits in queue order.
  */
  lemma {:induction false} RoundRobin(q: seq<Entry>, k: nat)
    requires forall i :: 0 <= i < |q| ==> q[i].left == k
    ensures Simulate(q) == Rounds(q, k)
    decreases k
  {
    assert q + [] == q;
    if k == 0 {
      ExitPass(q, []);
    } else {
      var d := Decremented(q);
      assert [] + d == d;
      YieldPass(q, []);
      assert forall i :: 0 <= i < |d| ==> d[i].left == k - 1;
      RoundRobin(d, k - 1);
      RoundsIgnoreLeft(q, k - 1);
      calc {
        Simulate(q);
        YieldAll(q) + Simulate(d);
        YieldAll(q) + Rounds(d, k - 1);
        YieldAll(q) + Rounds(q, k - 1);
        Rounds(q, k);
      }
    }
  }

  /** The round-robin trace resumes the tasks in queue order k + 1 times over. */
  lemma {:induction false} RoundsResumed(q: seq<Entry>, k: nat)
    ensures Resumed(Rounds(q, k)) == Repeat(Tasks(q), k + 1)
  {
    assert Resumed(ExitAll(q)) == Tasks(q);
    if k == 0 {
      assert Repeat(Tasks(q), 1) == Tasks(q) + [];
    } else {
      RoundsResumed(q, k - 1);
      var rest := Rounds(q, k - 1);
      assert Resumed(YieldAll(q)) == Tasks(q);
      assert Resumed(YieldAll(q) + rest) == Resumed(YieldAll(q)) + Resumed(rest);
    }
  }

  /** The round-robin trace prints each pass's arguments in queue order, k times over. */
  lemma {:induction false} RoundsPrinted(q: seq<Entry>, k: nat)
    ensures Printed(Rounds(q, k)) == Repeat(Args(q), k)
  {
    if k == 0 {
      PrintedExitAll(q);
    } else {
      RoundsPrinted(q, k - 1);
      PrintedYieldAll(q);
      PrintedAppend(YieldAll(q), Rounds(q, k - 1));
    }
  }

  /** The round-robin trace ends with every task exiting, in queue order. */
  lemma {:induction false} RoundsEnd(q: seq<Entry>, k: nat)
    ensures |Rounds(q, k)| >= |q| && Rounds(q, k)[|Rounds(q, k)| - |q|..] == ExitAll(q)
  {
    if k > 0 {
      RoundsEnd(q, k - 1);
      var rest := Rounds(q, k - 1);
      assert (YieldAll(q) + rest)[|YieldAll(q) + rest| - |q|..] == rest[|rest| - |q|..];
    }
  }

  lemma {:induction false} PrintedYieldAll(q: seq<Entry>)
    ensures Printed(YieldAll(q)) == Args(q)
  {
    if q != [] {
      assert YieldAll(q)[1..] == YieldAll(q[1..]);
      assert Args(q) == [q[0].arg] + Args(q[1..]);
      PrintedYieldAll(q[1..]);
    }
  }

  lemma {:induction false} PrintedExitAll(q: seq<Entry>)
    ensures Printed(ExitAll(q)) == []
  {
    if q != [] {
      assert ExitAll(q)[1..] == ExitAll(q[1..]);
      PrintedExitAll(q[1..]);
    }
  }

  /** Each yield of a task is one printed value: the output has one value per pending yield. */
  lemma {:induction false} PrintedLength(q: seq<Entry>)
    ensures |Printed(Simulate(q))| == Pending(q)
    decreases Work(q)
  {
    if q != [] {
      var s := Simulate(q);
      if q[0].left > 0 {
        SimulateYield(q);
        assert s[1..] == Simulate(q[1..] + [Requeued(q[0])]);
        WorkAppend(q[1..], [Requeued(q[0])]);
        PrintedLength(q[1..] + [Requeued(q[0])]);
      } else {
        SimulateExit(q);
        assert s[1..] == Simulate(q[1..]);
        PrintedLength(q[1..]);
      }
    }
  }

  /** A task that is not in the queue never receives control. */
  lemma {:induction false} AbsentNeverResumed(q: seq<Entry>, t: TaskId)
    requires forall i :: 0 <= i < |q| ==> q[i].task != t
    ensures Count(Simulate(q), t) == 0
    decreases Work(q)
  {
    if q != [] {
      var s := Simulate(q);
      if q[0].left > 0 {
        SimulateYield(q);
        assert s[1..] == Simulate(q[1..] + [Requeued(q[0])]);
        WorkAppend(q[1..], [Requeued(q[0])]);
        AbsentNeverResumed(q[1..] + [Requeued(q[0])], t);
      } else {
        SimulateExit(q);
        assert s[1..] == Simulate(q[1..]);
        AbsentNeverResumed(q[1..], t);
      }
    }
  }

  /** With distinct tasks, each task receives control exactly once per pending yield plus once to exit. */
  lemma {:induction false} ResumptionCount(q: seq<Entry>, i: nat)
    requires DistinctTasks(q) && i < |q|
    ensures Count(Simulate(q), q[i].task) == q[i].left + 1
    decreases Work(q)
  {
    var s := Simulate(q);
    var t := q[i].task;
    if q[0].left > 0 {
      var q' := q[1..] + [Requeued(q[0])];
      SimulateYield(q);
      assert s[1..] == Simulate(q');
      WorkAppend(q[1..], [Requeued(q[0])]);
      assert DistinctTasks(q');
      if i == 0 {
        ResumptionCount(q', |q| - 1);
      } else {
        ResumptionCount(q', i - 1);
      }
    } else {
      SimulateExit(q);
      assert s[1..] == Simulate(q[1..]);
      if i == 0 {
        AbsentNeverResumed(q[1..], t);
      } else {
        ResumptionCount(q[1..], i - 1);
      }
    }
  }

  /** With distinct tasks, a task that has exited never receives control again. */
  lemma {:induction false} ExitIsFinal(q: seq<Entry>, i: nat, j: nat)
    requires DistinctTasks(q)
    requires i < j < |Simulate(q)| && Simulate(q)[i].Exited?
    ensures Simulate(q)[j].task != Simulate(q)[i].task
    decreases Work(q)
  {
    var s := Simulate(q);
    if q[0].left > 0 {
      var q' := q[1..] + [Requeued(q[0])];
      SimulateYield(q);
      assert s[1..] == Simulate(q');
      WorkAppend(q[1..], [Requeued(q[0])]);
      assert DistinctTasks(q');
      ExitIsFinal(q', i - 1, j - 1);
    } else {
      SimulateExit(q);
      assert s[1..] == Simulate(q[1..]);
      if i == 0 {
        AbsentNeverResumed(q[1..], q[0].task);
        CountZero(Simulate(q[1..]), q[0].task, j - 1);
      } else {
        ExitIsFinal(q[1..], i - 1, j - 1);
      }
    }
  }

  /** Repeating a pair alternates its two values. */
  lemma {:induction false} RepeatPairAt<T>(x: T, y: T, k: nat, i: nat)
    requires i < |Repeat([x, y], k)|
    ensures Repeat([x, y], k)[i] == if i % 2 == 0 then x else y
  {
    if i >= 2 {
      RepeatPairAt(x, y, k - 1, i - 2);
    }
  }
}
