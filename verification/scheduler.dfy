/** The default scheduler, a wait queue and a mutex on a single processor. A critical section that pauses the
    scheduler and disables interrupts runs as one step and ends with the pending reschedule, if any. */
module Schedulers {
  import opened Sequences
  import opened RunQueues
  import opened MutexProtocol

  const WAKEUP_REASON_MUTEX: int := 20

  /** A runqueue that holds the given tasks in turn. */
  method FilledQueue(ready: seq<Task>) returns (queue: RunQueue)
    requires NoDup(ready)
    modifies ready`next, ready`prev
    ensures fresh(queue) && queue.Valid() && queue.q == ready
  {
    hide Linked;
    queue := new RunQueue();
    var i := 0;
    while i < |ready|
      invariant i <= |ready| && queue.Valid() && queue.q == ready[..i]
      modifies queue, ready`next, ready`prev
    {
      assert ready[i] !in ready[..i];
      queue.InsertTail(ready[i]);
      i := i + 1;
    }
    assert ready[..|ready|] == ready;
  }

  class Kernel {
    // the scheduler
    const runqueue: RunQueue
    const idle: Task
    var enabled: bool
    var pending: bool
    var current: Task

    // the mutex and its wait queue
    var locked: bool
    var owner: Task?
    var waitQueue: seq<Task>

    // every task but the idle one; those inside down after a failed attempt; those that hold the mutex
    ghost const tasks: set<Task>
    ghost var retry: set<Task>
    ghost var holding: set<Task>

    /** The runqueue holds each running task exactly once, and no other task. */
    ghost predicate QueueOk()
      reads runqueue, runqueue.q`next, runqueue.q`prev, tasks`state
    {
      runqueue.Valid() && idle !in tasks && Runnable(runqueue.q)
    }

    /** The tasks of q are exactly the running ones. */
    ghost predicate Runnable(q: seq<Task>)
      reads tasks`state
    {
      (forall t :: t in q ==> t in tasks) && forall t :: t in tasks ==> (t.state == TASK_STATE_RUNNING <==> t in q)
    }

    /** Between steps the scheduler is enabled, and the head of the runqueue, or the idle task, runs. */
    ghost predicate Scheduled()
      reads `enabled, `pending, `current, runqueue, runqueue.q`next, runqueue.q`prev, tasks`state
    {
      QueueOk() && enabled && !pending && current == if runqueue.q == [] then idle else runqueue.q[0]
    }

    /** Inside a critical section. */
    ghost predicate Paused()
      reads `enabled, runqueue, runqueue.q`next, runqueue.q`prev, tasks`state
    {
      QueueOk() && !enabled
    }

    ghost function Abstract(): State
      reads runqueue, `waitQueue, `locked, `owner, `retry, `holding
    {
      State(runqueue.q, waitQueue, locked, owner, retry, holding)
    }

    ghost predicate Valid()
      reads this, runqueue, runqueue.q`next, runqueue.q`prev, tasks`state
    {
      Scheduled() && Inv(Abstract()) && forall t :: t in waitQueue ==> t in tasks
    }

    /** A kernel whose tasks are all runnable, with an unlocked mutex. */
    constructor (ready: seq<Task>, idle: Task)
      requires NoDup(ready) && idle !in ready
      requires forall t :: t in ready ==> t.state == TASK_STATE_RUNNING
      modifies ready
      ensures Valid() && Initial(Abstract()) && runqueue.q == ready && tasks == set t | t in ready
      ensures fresh(runqueue)
    {
      hide Linked, Inv, NoDup;
      var queue := FilledQueue(ready);
      runqueue := queue;
      this.idle, enabled, pending, current := idle, true, false, if queue.head == null then idle else queue.head;
      locked, owner, waitQueue := false, null, [];
      tasks, retry, holding := set t | t in ready, {}, {};
      new;
      InitialInv(Abstract());
    }

    lemma InitialInv(s: State)
      requires Initial(s)
      ensures Inv(s)
    {
    }

    /** defsched_sched. */
    method Schedule()
      requires QueueOk()
      modifies runqueue, `pending, `current
      ensures QueueOk()
      ensures !enabled ==> pending && runqueue.q == old(runqueue.q) && current == old(current)
      ensures enabled ==> Scheduled() && runqueue.q == Scrolled(old(runqueue.q))
    {
      if enabled {
        ScrolledElements(runqueue.q) by { QueueNoDup(); }
        runqueue.ScrollNext();
        current := if runqueue.head == null then idle else runqueue.head;
        pending := false;
      } else {
        pending := true;
      }
    }

    lemma QueueNoDup()
      requires QueueOk()
      ensures NoDup(runqueue.q)
    {
    }

    /** defsched_set_state. */
    method SetState(state: bool)
      requires QueueOk()
      modifies runqueue, `enabled, `pending, `current
      ensures QueueOk() && enabled == state
      ensures !state || !old(pending) ==>
        runqueue.q == old(runqueue.q) && pending == old(pending) && current == old(current)
      ensures state && old(pending) ==> Scheduled() && runqueue.q == Scrolled(old(runqueue.q))
    {
      enabled := state;
      if state && pending { Schedule(); }
    }

    /** defsched_wake_up. Waking a task that already is in the wanted state is a failure unless the caller insists. */
    method WakeUp(task: Task, op: nat, reason: int, delayed: bool, again: bool, ghost k: nat)
      requires Paused() && task in tasks
      requires task.state != op || again
      requires op == TASK_STATE_RUNNING ==> task.state != TASK_STATE_RUNNING
      requires op != TASK_STATE_RUNNING && task.state == TASK_STATE_RUNNING ==>
        k < |runqueue.q| && runqueue.q[k] == task
      modifies runqueue, runqueue.q`next, runqueue.q`prev, task, `pending, `current
      ensures Paused() && task.state == op && current == old(current)
      ensures op == TASK_STATE_RUNNING ==>
        runqueue.q == if reason > 0 then [task] + old(runqueue.q) else old(runqueue.q) + [task]
      ensures op == TASK_STATE_RUNNING ==> task.wakeupReason == reason && pending == (old(pending) || !delayed)
      ensures op != TASK_STATE_RUNNING ==>
        && runqueue.q == (if old(task.state) == TASK_STATE_RUNNING then Without(old(runqueue.q), k)
            else old(runqueue.q))
        && pending == old(pending) && task.wakeupReason == old(task.wakeupReason)
    {
      hide Without, NoDup, Scrolled, Linked;
      if op == TASK_STATE_RUNNING {
        PutInRunqueue(task, reason);
        if !delayed { Schedule(); }
      } else {
        if task.state == TASK_STATE_RUNNING {
          TakeOffRunqueue(task, op, k);
        } else {
          task.state := op;
        }
      }
    }

    /** Made runnable, it is first in the queue if there is a reason, last otherwise. */
    method PutInRunqueue(task: Task, reason: int)
      requires QueueOk() && task in tasks && task.state != TASK_STATE_RUNNING
      modifies runqueue, runqueue.q`next, runqueue.q`prev, task
      ensures QueueOk() && task.state == TASK_STATE_RUNNING && task.wakeupReason == reason
      ensures runqueue.q == if reason > 0 then [task] + old(runqueue.q) else old(runqueue.q) + [task]
    {
      hide NoDup, Linked;
      ghost var q0 := runqueue.q;
      if reason > 0 { runqueue.InsertHead(task); } else { runqueue.InsertTail(task); }
      task.state := TASK_STATE_RUNNING;
      task.wakeupReason := reason;
      assert forall t :: t in runqueue.q <==> t in q0 || t == task;
    }

    /** Put to sleep, it is no longer runnable. */
    method TakeOffRunqueue(task: Task, op: nat, ghost k: nat)
      requires QueueOk() && task in tasks && op != TASK_STATE_RUNNING && k < |runqueue.q| && runqueue.q[k] == task
      modifies runqueue, runqueue.q`next, runqueue.q`prev, task`state
      ensures QueueOk() && task.state == op && runqueue.q == Without(old(runqueue.q), k)
    {
      hide NoDup, Linked, Without;
      ghost var q0 := runqueue.q;
      WithoutElements(q0, k) by { QueueNoDup(); }
      runqueue.Remove(task, k);
      task.state := op;
      assert runqueue.q == Without(q0, k) && task == q0[k];
      forall t | t in runqueue.q ensures t in tasks { WithoutElement(q0, k, t); }
      forall t | t in tasks
        ensures t.state == TASK_STATE_RUNNING <==> t in runqueue.q
      {
        assert t in runqueue.q <==> t in q0 && t != task;
      }
    }

    /** signal: the first waiter becomes runnable, ahead of the others. */
    method Signal(reason: int)
      requires Paused() && reason > 0 && NoDup(waitQueue)
      requires forall t :: t in waitQueue ==> t in tasks && t !in runqueue.q
      modifies runqueue, runqueue.q`next, runqueue.q`prev, waitQueue, `waitQueue, `pending, `current
      ensures Paused() && current == old(current)
      ensures waitQueue == (if old(waitQueue) == [] then [] else old(waitQueue)[1..])
      ensures runqueue.q == (if old(waitQueue) == [] then old(runqueue.q) else [old(waitQueue)[0]] + old(runqueue.q))
      ensures pending == (old(pending) || old(waitQueue) != [])
      ensures old(waitQueue) != [] ==> old(waitQueue)[0].wakeupReason == reason
    {
      if waitQueue != [] {
        var task := waitQueue[0];
        assert task in waitQueue;
        waitQueue := waitQueue[1..];
        WakeUp(task, TASK_STATE_RUNNING, reason, false, false, 0);
      }
    }

    /** __sleep: the running task goes to the end of the wait queue and off the runqueue. */
    method Sleep()
      requires Paused() && runqueue.q != [] && current == runqueue.q[0]
      modifies runqueue, runqueue.q`next, runqueue.q`prev, current, `waitQueue, `pending, `current
      ensures Paused() && pending && current == old(current)
      ensures waitQueue == old(waitQueue) + [current] && runqueue.q == old(runqueue.q)[1..]
    {
      waitQueue := waitQueue + [current];
      assert current in runqueue.q;
      WakeUp(current, TASK_STATE_SOFT_WAIT, 0, false, false, 0);
      Schedule();
    }

    /** Leaving a critical section: the scheduler is enabled again, and reschedules if that is pending. */
    method Leave()
      requires Paused()
      requires !pending ==> current == if runqueue.q == [] then idle else runqueue.q[0]
      modifies runqueue, `enabled, `pending, `current
      ensures Scheduled() && runqueue.q == if old(pending) then Scrolled(old(runqueue.q)) else old(runqueue.q)
    {
      SetState(true);
    }

    /** One turn of the loop of down. A task whose attempt fails sleeps, and tries again when it runs next. */
    method Down() returns (acquired: bool)
      requires Valid() && Enabled(Abstract(), Event.Down)
      modifies this, runqueue, runqueue.q
      ensures Valid() && Abstract() == Step(old(Abstract()), Event.Down)
      ensures acquired <==> !old(locked)
      ensures acquired ==> old(current) in holding && old(current) !in retry && current == old(current)
      ensures waitQueue == if acquired then old(waitQueue) else old(waitQueue) + [old(current)]
      ensures !acquired ==> old(current) in retry && current != old(current)
    {
      hide Inv, Scrolled, NoDup, QueueOk, Runnable;
      ghost var s := Abstract();
      StepKeeps(s, Event.Down);
      NotIdle();
      SetState(false);
      if !locked {
        locked := true;
        owner := current;
        retry := retry - {current};
        holding := holding + {current};
        acquired := true;
      } else {
        retry := retry + {current};
        Sleep();
        acquired := false;
        NotAgain(s);
      }
      Leave();
    }

    lemma NotIdle()
      requires QueueOk() && runqueue.q != []
      ensures runqueue.q[0] != idle && runqueue.q[0] in tasks
    {
    }

    /** A task that went to sleep is not the next to run. */
    lemma NotAgain(s: State)
      requires Inv(s) && s.q != [] && s.locked
      ensures s.q[0] !in Step(s, Event.Down).q
    {
      StepKeeps(s, Event.Down);
      var r := Step(s, Event.Down);
      assert r.waiting[|r.waiting| - 1] == s.q[0];
    }

    /** try_down. */
    method TryDown() returns (result: int)
      requires Valid() && Enabled(Abstract(), Event.TryDown)
      modifies this, runqueue
      ensures Valid() && Abstract() == Step(old(Abstract()), Event.TryDown) && current == old(current)
      ensures result == if old(locked) then -1 else 0
      ensures result == 0 ==> owner == current && current in holding
    {
      hide Inv, Scrolled, NoDup, QueueOk, Runnable;
      StepKeeps(Abstract(), Event.TryDown);
      result := -1;
      SetState(false);
      if !locked {
        locked := true;
        owner := current;
        holding := holding + {current};
        result := 0;
      }
      Leave();
    }

    /** up, by the holder of the mutex; any other caller halts the kernel. */
    method Up()
      requires Valid() && Enabled(Abstract(), Event.Up)
      modifies this, runqueue, runqueue.q, waitQueue
      ensures Valid() && Abstract() == Step(old(Abstract()), Event.Up) && current == old(current)
      ensures !locked && waitQueue == (if old(waitQueue) == [] then [] else old(waitQueue)[1..])
      ensures runqueue.q == old(runqueue.q) + if old(waitQueue) == [] then [] else [old(waitQueue)[0]]
      ensures old(waitQueue) != [] ==>
        old(waitQueue)[0] in runqueue.q && old(waitQueue)[0].wakeupReason == WAKEUP_REASON_MUTEX
    {
      hide Inv, Scrolled, NoDup, QueueOk, Runnable;
      ghost var s := Abstract();
      StepKeeps(s, Event.Up);
      WaitersAside(s);
      UpHead(s);
      SetState(false);
      locked := false;
      holding := holding - {current};
      Signal(WAKEUP_REASON_MUTEX);
      Leave();
    }

    lemma WaitersAside(s: State)
      requires Inv(s)
      ensures NoDup(s.waiting) && forall t :: t in s.waiting ==> t !in s.q
    {
    }

    /** After up the caller goes on running, and the woken task is last in turn. */
    lemma UpHead(s: State)
      requires s.q != []
      ensures s.waiting != [] ==> Scrolled([s.waiting[0]] + s.q) == s.q + [s.waiting[0]]
    {
    }

    /** defsched_sys_timer. */
    method SysTimer()
      requires QueueOk()
      modifies runqueue, `pending, `current
      ensures QueueOk() && (!enabled ==> pending && runqueue.q == old(runqueue.q) && current == old(current))
      ensures enabled ==> Scheduled() && runqueue.q == Scrolled(old(runqueue.q))
    {
      if enabled { Schedule(); } else { pending := true; }
    }

    /** A timer tick between steps. */
    method Tick()
      requires Valid()
      modifies this, runqueue
      ensures Valid() && Abstract() == Step(old(Abstract()), Event.Tick)
    {
      hide Inv, Scrolled, NoDup, QueueOk, Runnable;
      StepKeeps(Abstract(), Event.Tick);
      SysTimer();
    }
  }
}
