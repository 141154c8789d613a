/** The scheduler's invariant, for each operation the exact condition under which it is kept, and what follows for whole
    runs. */
module SchedInvariant {
  import opened Kernel
  import opened Signals
  import opened Sched

  predicate NoDuplicates(q: seq<nat>) { forall i, j | 0 <= i < j < |q| :: q[i] != q[j] }

  /** The queue has no duplicates and holds exactly the Ready tasks; the current task, if any, is the one Running
      task and is not queued; tasks that were dropped are Terminated. */
  predicate Wf(s: Sched) {
    && Known(s)
    && NoDuplicates(s.queue)
    && (forall t | t in s.queue :: t in s.all)
    && (forall t | t in s.all :: t in s.queue <==> s.tasks[t].state == Ready)
    && (s.current.Some? ==> s.current.value in s.all && s.tasks[s.current.value].state == Running)
    && (forall t | t in s.all && s.tasks[t].state == Running :: s.current == Some(t))
    && (forall t | t in s.tasks && t !in s.all :: s.tasks[t].state == Terminated)
  }

  // ---------------------------------------------------------------- choosing from a queue of ready tasks

  function PriorityAt(s: Sched, i: nat): nat
    requires Known(s) && i < |s.queue|
  {
    Rank(s.tasks[s.queue[i]].priority)
  }

  predicate AllReady(s: Sched)
    requires Known(s)
  {
    forall i | 0 <= i < |s.queue| :: s.tasks[s.queue[i]].state == Ready
  }

  /** Position `b` holds the first of the tasks of the highest priority in the queue. */
  predicate IsFirstBest(s: Sched, b: nat)
    requires Known(s)
  {
    && b < |s.queue|
    && (forall j | 0 <= j < |s.queue| :: PriorityAt(s, j) <= PriorityAt(s, b))
    && (forall j | 0 <= j < b :: PriorityAt(s, j) < PriorityAt(s, b))
  }

  /** `best` is the first best of the first `i` elements, as the loop of `pick_next_task` keeps it. */
  predicate BestSoFar(s: Sched, i: nat, best: nat, priority: Priority)
    requires Known(s) && i <= |s.queue|
  {
    && best < |s.queue|
    && (forall j | 0 <= j < i :: PriorityAt(s, j) <= Rank(priority))
    && (if Rank(priority) == 0 then best == 0
        else
          && best < i && PriorityAt(s, best) == Rank(priority)
          && (forall j | 0 <= j < best :: PriorityAt(s, j) < Rank(priority)))
  }

  lemma {:induction false} ScanFindsBest(s: Sched, i: nat, best: nat, priority: Priority)
    requires Known(s) && AllReady(s) && i <= |s.queue| && BestSoFar(s, i, best, priority)
    ensures IsFirstBest(s, Scan(s, i, best, priority))
    decreases |s.queue| - i
  {
    if i < |s.queue| {
      var task := s.tasks[s.queue[i]];
      assert PriorityAt(s, i) == Rank(task.priority);
      if Rank(task.priority) > Rank(priority) {
        ScanFindsBest(s, i + 1, i, task.priority);
      } else {
        ScanFindsBest(s, i + 1, best, priority);
      }
    } else {
      assert PriorityAt(s, best) <= Rank(priority);
    }
  }

  /** From a queue of ready tasks `pick_next_task` takes the first of the highest priority, and fails only on an
      empty queue. */
  lemma PickFindsBest(s: Sched)
    requires Known(s) && AllReady(s)
    ensures Pick(s).None? <==> s.queue == []
    ensures Pick(s).Some? ==> IsFirstBest(s, Pick(s).value)
  {
    if s.queue != [] { ScanFindsBest(s, 0, 0, Low); }
  }

  // ---------------------------------------------------------------- the two halves of a switch

  /** Wf without a current task: what holds between the two halves of a switch. */
  predicate Idle(s: Sched) {
    && Known(s)
    && NoDuplicates(s.queue)
    && (forall t | t in s.queue :: t in s.all)
    && (forall t | t in s.all :: t in s.queue <==> s.tasks[t].state == Ready)
    && (forall t | t in s.all :: s.tasks[t].state != Running)
    && (forall t | t in s.tasks && t !in s.all :: s.tasks[t].state == Terminated)
  }

  lemma IdleAllReady(s: Sched)
    requires Idle(s)
    ensures AllReady(s)
  {
    forall i | 0 <= i < |s.queue|
      ensures s.tasks[s.queue[i]].state == Ready
    {
      assert s.queue[i] in s.queue;
    }
  }

  lemma RemoveAtMeaning(q: seq<nat>, i: nat, x: nat)
    requires NoDuplicates(q) && i < |q|
    ensures NoDuplicates(RemoveAt(q, i))
    ensures x in RemoveAt(q, i) <==> x in q && x != q[i]
  {
    var r := RemoveAt(q, i);
    forall j | 0 <= j < |r|
      ensures r[j] == if j < i then q[j] else q[j + 1]
    {
    }
    if x in q && x != q[i] {
      var j :| 0 <= j < |q| && q[j] == x;
      assert r[if j < i then j else j - 1] == x;
    }
  }

  /** Dispatching a queued task makes it the one running task. */
  lemma DispatchKeepsWf(s: Sched, i: nat)
    requires Idle(s) && i < |s.queue|
    ensures Wf(Dispatch(s, i))
  {
    var t := s.queue[i];
    assert t in s.queue;
    forall x
      ensures NoDuplicates(RemoveAt(s.queue, i)) && (x in RemoveAt(s.queue, i) <==> x in s.queue && x != t)
    {
      RemoveAtMeaning(s.queue, i, x);
    }
  }

  lemma AppendNew(q: seq<nat>, x: nat)
    requires NoDuplicates(q) && x !in q
    ensures NoDuplicates(q + [x])
    ensures forall y :: y in q + [x] <==> y in q || y == x
  {
  }

  /** Making a task that was not queued ready, at the back of the queue. */
  lemma QueueTask(s: Sched, t: nat, task: Task, s1: Sched)
    requires Wf(s) && t in s.all && t !in s.queue && task.state == Ready
    requires s1.tasks == s.tasks[t := task] && s1.queue == s.queue + [t] && s1.all == s.all && s1.nextId == s.nextId
    requires s1.current == s.current
    ensures s.current == Some(t) ==> Idle(s1)
    ensures s.current != Some(t) ==> Wf(s1)
  {
    AppendNew(s.queue, t);
  }

  /** Wf with the current task no longer running: it was blocked, stopped or terminated and nobody has switched yet. */
  predicate Halted(s: Sched) {
    Idle(s) && s.current.Some? && s.current.value in s.all && s.current.value !in s.queue
  }

  /** The two states differ at most in counters and flags. */
  predicate SameTasks(s: Sched, s1: Sched) {
    s1.tasks == s.tasks && s1.queue == s.queue && s1.all == s.all && s1.current == s.current && s1.nextId == s.nextId
  }

  lemma SameTasksSameWf(s: Sched, s1: Sched)
    requires SameTasks(s, s1)
    ensures Wf(s) <==> Wf(s1)
    ensures Idle(s) <==> Idle(s1)
  {
  }

  /** With a task queued, the second half of a switch ends in a well-formed state. */
  lemma IdlePick(s: Sched)
    requires Idle(s) && s.queue != []
    ensures Pick(s).Some? && Wf(Dispatch(s, Pick(s).value))
  {
    IdleAllReady(s);
    PickFindsBest(s);
    DispatchKeepsWf(s, Pick(s).value);
  }

  lemma EmptyQueuePick(s: Sched)
    requires Known(s) && s.queue == []
    ensures Pick(s).None?
  {
  }

  /** What `schedule` does once the current task, if it was running, is back in the queue. */
  lemma ScheduleIdle(s: Sched, s1: Sched)
    requires Known(s) && s1 == Requeue(s.(needReschedule := false)) && Idle(s1)
    ensures s1.queue != [] ==> Wf(Schedule(s))
    ensures s1.queue == [] ==> Schedule(s) == s1
  {
    if s1.queue != [] {
      IdlePick(s1);
      SameTasksSameWf(Dispatch(s1, Pick(s1).value), Schedule(s));
    } else {
      EmptyQueuePick(s1);
    }
  }

  /** `schedule` restores the invariant after the current task was halted exactly when a task is queued. */
  lemma ScheduleAfterHalt(s: Sched)
    requires Halted(s)
    ensures Wf(Schedule(s)) <==> s.queue != []
    ensures s.queue == [] ==> Halted(Schedule(s))
  {
    assert s.tasks[s.current.value].state != Running;
    ScheduleIdle(s, s.(needReschedule := false));
  }

  lemma ScheduleKeepsWf(s: Sched)
    requires Wf(s)
    ensures Wf(Schedule(s))
  {
    var s0 := s.(needReschedule := false);
    match s.current {
      case None => ScheduleIdle(s, s0);
      case Some(c) =>
        QueueTask(s, c, Rested(s.tasks[c]).(state := Ready), Requeue(s0));
        ScheduleIdle(s, Requeue(s0));
    }
  }

  lemma PreemptKeepsWf(s: Sched, rsp: nat)
    requires Wf(s)
    ensures Wf(Preempt(s, rsp).0)
  {
    if s.preemptEnabled {
      var s1 := SaveCurrent(s, rsp);
      match s.current {
        case None =>
        case Some(c) => QueueTask(s, c, Rested(s.tasks[c]).(savedRsp := rsp, state := Ready), s1);
      }
      if s1.queue != [] {
        IdlePick(s1);
        SameTasksSameWf(Dispatch(s1, Pick(s1).value), Preempt(s, rsp).0);
      } else {
        EmptyQueuePick(s1);
      }
    }
  }

  // ---------------------------------------------------------------- one task's record changed

  /** Changing fields of a task other than its state keeps the invariant. */
  lemma SameStateKeepsWf(s: Sched, t: nat, task: Task)
    requires Wf(s) && t in s.tasks && task.state == s.tasks[t].state
    ensures Wf(Put(s, t, task))
  {
  }

  /** Taking the current task out of the running state halts it. */
  lemma HaltCurrent(s: Sched, c: nat, task: Task)
    requires Wf(s) && s.current == Some(c) && task.state != Running && task.state != Ready
    ensures Halted(Put(s, c, task)) && !Wf(Put(s, c, task))
  {
  }

  // ---------------------------------------------------------------- tick

  lemma AfterSignalState(task: Task)
    requires task.state == Running
    ensures AfterSignal(task).state == Running <==> !Halts(NextSignal(task))
    ensures StopsAt(task) <==> Halts(NextSignal(task))
    ensures Halts(NextSignal(task)) ==> AfterSignal(task).state == Terminated || AfterSignal(task).state == Blocked
  {
  }

  lemma TickHaltedBreaks(s: Sched, c: nat)
    requires Wf(s) && s.current == Some(c) && Halts(NextSignal(s.tasks[c]))
    ensures Halted(TickHalted(s, c)) && !Wf(TickHalted(s, c)) && TickHalted(s, c).current == s.current
  {
    AfterSignalState(s.tasks[c]);
    HaltCurrent(s, c, AfterSignal(s.tasks[c]));
    SameTasksSameWf(Put(s, c, AfterSignal(s.tasks[c])), TickHalted(s, c));
  }

  lemma TickRunningKeepsWf(s: Sched, c: nat)
    requires Wf(s) && s.current == Some(c) && !Halts(NextSignal(s.tasks[c]))
    ensures Wf(TickRunning(s, c))
  {
    AfterSignalState(s.tasks[c]);
    var task := Charged(s.tasks[c]);
    var s1 := Put(s, c, task);
    SameStateKeepsWf(s, c, task);
    SameTasksSameWf(s1, s1.(needReschedule := true));
    ScheduleKeepsWf(s1.(needReschedule := true));
  }

  lemma TickCurrentKeepsWf(s: Sched, c: nat)
    requires Wf(s) && s.current == Some(c)
    ensures Wf(TickCurrent(s, c)) <==> !Halts(NextSignal(s.tasks[c]))
    ensures Halts(NextSignal(s.tasks[c])) ==> Halted(TickCurrent(s, c)) && TickCurrent(s, c).current == s.current
  {
    AfterSignalState(s.tasks[c]);
    if Halts(NextSignal(s.tasks[c])) {
      TickHaltedBreaks(s, c);
    } else {
      TickRunningKeepsWf(s, c);
    }
  }

  /** The next `tick` takes a SIGKILL or SIGTSTP from the current task. */
  predicate TickWillHalt(s: Sched)
    requires Known(s)
  {
    s.preemptEnabled && s.current.Some? && Halts(NextSignal(s.tasks[s.current.value]))
  }

  /** `tick` keeps the invariant exactly when it does not take a SIGKILL or SIGTSTP from the current task; when it does,
      the task is halted but stays current. */
  lemma TickKeepsWf(s: Sched)
    requires Wf(s)
    ensures Wf(Tick(s)) <==> !TickWillHalt(s)
    ensures TickWillHalt(s) ==> Halted(Tick(s)) && Tick(s).current == s.current
  {
    TickedKeepsWf(s, s.(ticks := s.ticks + 1));
  }

  lemma TickedKeepsWf(s: Sched, s1: Sched)
    requires Wf(s) && s1 == s.(ticks := s.ticks + 1)
    ensures Wf(Tick(s)) <==> !TickWillHalt(s)
    ensures TickWillHalt(s) ==> Halted(Tick(s)) && Tick(s).current == s.current
  {
    SameTasksSameWf(s, s1);
    TimerKeepsWf(s1);
    TickIsTimer(s, s1);
  }

  lemma TickIsTimer(s: Sched, s1: Sched)
    requires Known(s) && s1 == s.(ticks := s.ticks + 1)
    ensures Tick(s) == Timer(s1)
    ensures TickWillHalt(s) <==> TickWillHalt(s1)
  {
  }

  lemma TimerKeepsWf(s: Sched)
    requires Wf(s)
    ensures Wf(Timer(s)) <==> !TickWillHalt(s)
    ensures TickWillHalt(s) ==> Halted(Timer(s)) && Timer(s).current == s.current
  {
    if s.preemptEnabled {
      match s.current {
        case None => ScheduleKeepsWf(s);
        case Some(c) => TickCurrentKeepsWf(s, c);
      }
    }
  }

  // ---------------------------------------------------------------- process control

  /** `block_current` keeps the invariant exactly when there is no current task. */
  lemma BlockCurrentKeepsWf(s: Sched)
    requires Wf(s)
    ensures Wf(BlockCurrent(s)) <==> s.current.None?
    ensures s.current.Some? ==> Halted(BlockCurrent(s)) && BlockCurrent(s).queue == s.queue
  {
    if s.current.Some? {
      var c := s.current.value;
      HaltCurrent(s, c, s.tasks[c].(state := Blocked));
      SameTasksSameWf(WithState(s, c, Blocked), BlockCurrent(s));
    }
  }

  /** `block_current` followed by `schedule` keeps the invariant exactly when another task is queued. */
  lemma BlockThenScheduleKeepsWf(s: Sched)
    requires Wf(s)
    ensures Wf(Schedule(BlockCurrent(s))) <==> s.current.None? || s.queue != []
  {
    BlockCurrentKeepsWf(s);
    if s.current.Some? { ScheduleAfterHalt(BlockCurrent(s)); } else { ScheduleKeepsWf(s); }
  }

  lemma UnblockKeepsWf(s: Sched, id: nat)
    requires Wf(s)
    ensures Wf(Unblock(s, id).0)
  {
    if id in s.all && s.tasks[id].state == Blocked {
      QueueTask(s, id, s.tasks[id].(state := Ready), Unblock(s, id).0);
    }
  }

  /** `terminate_current` keeps the invariant exactly when there is no current task or another one is queued. */
  lemma TerminateCurrentKeepsWf(s: Sched, code: int)
    requires Wf(s)
    ensures Wf(TerminateCurrent(s, code)) <==> s.current.None? || s.queue != []
  {
    if s.current.None? {
      SameTasksSameWf(s, s.(needReschedule := true));
      ScheduleKeepsWf(s.(needReschedule := true));
    } else {
      var c := s.current.value;
      var s1 := Put(s, c, s.tasks[c].(state := Terminated, exitCode := code));
      HaltCurrent(s, c, s.tasks[c].(state := Terminated, exitCode := code));
      SameTasksSameWf(s1, s1.(needReschedule := true));
      ScheduleAfterHalt(s1.(needReschedule := true));
    }
  }

  lemma {:induction false} WithoutNoDuplicates(q: seq<nat>, id: nat)
    requires NoDuplicates(q)
    ensures NoDuplicates(Without(q, id))
  {
    if q != [] {
      WithoutNoDuplicates(q[1..], id);
      var r := Without(q[1..], id);
      forall i | 0 <= i < |r|
        ensures r[i] != q[0]
      {
        WithoutMeaning(q[1..], id, r[i]);
      }
    }
  }

  /** A task other than the current one is terminated and taken off the queue. */
  lemma TerminateOther(s: Sched, id: nat, task: Task, s1: Sched)
    requires Wf(s) && id in s.all && s.current != Some(id) && task.state == Terminated
    requires s1.tasks == s.tasks[id := task] && s1.queue == Without(s.queue, id)
    requires s1.all == s.all && s1.nextId == s.nextId && s1.current == s.current
    ensures Wf(s1)
  {
    WithoutNoDuplicates(s.queue, id);
    forall x
      ensures x in s1.queue <==> x in s.queue && x != id
    {
      WithoutMeaning(s.queue, id, x);
    }
  }

  /** `terminate_task` keeps the invariant exactly when it does not hit the current task. */
  lemma TerminateTaskKeepsWf(s: Sched, id: nat, code: int)
    requires Wf(s)
    ensures Wf(TerminateTask(s, id, code).0) <==> !(id > 2 && s.current == Some(id))
  {
    if id > 2 && id in s.all && s.current != Some(id) {
      TerminateOther(s, id, s.tasks[id].(state := Terminated, exitCode := code), TerminateTask(s, id, code).0);
    }
  }

  lemma SendSignalKeepsWf(s: Sched, id: nat, signal: nat)
    requires Wf(s)
    ensures Wf(SendSignal(s, id, signal).0)
  {
    if id in s.all { SameStateKeepsWf(s, id, s.tasks[id].(pending := Send(s.tasks[id].pending, signal))); }
  }

  /** The `bg` command names a stopped task that is nevertheless ready or running. */
  predicate ResumesActive(s: Sched, id: nat)
    requires Known(s)
  {
    id in s.all && s.tasks[id].foreground == Stopped && (s.tasks[id].state == Ready || s.tasks[id].state == Running)
  }

  /** `background_task` keeps the invariant exactly when the task it resumes is neither ready nor running. */
  lemma ToBackgroundKeepsWf(s: Sched, id: nat)
    requires Wf(s)
    ensures Wf(ToBackground(s, id).0) <==> !ResumesActive(s, id)
  {
    if id in s.all && s.tasks[id].foreground == Stopped {
      var s1 := ToBackground(s, id).0;
      if ResumesActive(s, id) {
        if s.tasks[id].state == Ready {
          TwiceInQueue(s.queue, id);
        } else {
          assert s1.current == Some(id) && s1.tasks[id].state == Ready;
        }
      } else {
        QueueTask(s, id, s1.tasks[id], s1);
      }
    }
  }

  lemma TwiceInQueue(q: seq<nat>, x: nat)
    requires x in q
    ensures !NoDuplicates(q + [x])
  {
    var i :| 0 <= i < |q| && q[i] == x;
    var r := q + [x];
    assert r[i] == r[|q|];
  }

  lemma ToForegroundKeepsWf(s: Sched, id: nat)
    requires Wf(s)
    ensures Wf(ToForeground(s, id).0)
  {
    if id in s.all { SameStateKeepsWf(s, id, s.tasks[id].(foreground := Foreground)); }
  }

  lemma {:induction false} WithoutAllNoDuplicates(q: seq<nat>, dead: seq<nat>)
    requires NoDuplicates(q)
    ensures NoDuplicates(WithoutAll(q, dead))
    decreases |dead|
  {
    if dead != [] {
      WithoutNoDuplicates(q, dead[0]);
      WithoutAllNoDuplicates(Without(q, dead[0]), dead[1..]);
    }
  }

  lemma CleanupKeepsWf(s: Sched)
    requires Wf(s)
    ensures Wf(Cleanup(s))
  {
    var dead := TerminatedIn(s.tasks, s.all);
    WithoutAllNoDuplicates(s.queue, dead);
    forall x
      ensures x in Cleanup(s).queue <==> x in s.queue && x !in dead
      ensures x in Cleanup(s).all <==> x in s.all && x !in dead
    {
      WithoutAllMeaning(s.queue, dead, x);
      WithoutAllMeaning(s.all, dead, x);
    }
  }

  lemma CreateKeepsWf(s: Sched, priority: Priority, foreground: Foreground, rsp: nat)
    requires Wf(s)
    ensures Wf(Create(s, priority, foreground, rsp))
  {
    AppendNew(s.queue, s.nextId);
  }
}
