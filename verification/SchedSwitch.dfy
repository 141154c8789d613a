/**
 What the fifteen operations of src/sched/scheduler.rs do to the current task, the ready queue, the states of the tasks
 and the wish for a switch, each said on the state before.
 */
module SchedSwitch {
  import opened Kernel
  import opened Sched
  import opened SchedInvariant
  import opened SchedRuns
  import SchedHalt
  import Signals

  /** The state of a task after the signal that a tick takes from it. */
  function SignalState(task: Task): TaskState {
    var signal := NextSignal(task);
    if signal == Some(Signals.SIGKILL) then Terminated
    else if signal == Some(Signals.SIGTSTP) then Blocked
    else if signal == Some(Signals.SIGCONT) && task.foreground == Stopped then Running
    else task.state
  }

  lemma StopsIffNotRunning(task: Task)
    ensures StopsAt(task) <==> SignalState(task) != Running
    ensures AfterSignal(task).state == SignalState(task)
    ensures AfterSignal(task).timeSlice == task.timeSlice && AfterSignal(task).priority == task.priority
  {
  }

  /** A tick makes the scheduler choose: no task is current and a switch was asked for, or the current one runs and a
      switch was asked for or this is the last tick of its slice. */
  predicate TickChooses(s: Sched)
    requires Known(s)
  {
    && s.preemptEnabled
    && match s.current
       case None => s.needReschedule
       case Some(c) => SignalState(s.tasks[c]) == Running && (s.needReschedule || s.tasks[c].timeSlice <= 1)
  }

  /** The operation makes the scheduler choose a task. */
  predicate Chooses(s: Sched, op: Op)
    requires Known(s)
  {
    match op
    case ScheduleNow => true
    case YieldNow => true
    case BlockAndSchedule => true
    case Exit(_) => true
    case PreemptAt(_) => s.preemptEnabled
    case TimerTick => TickChooses(s)
    case _ => false
  }

  /** The current task goes behind the waiting ones before the choice. */
  predicate GoesBack(s: Sched, op: Op)
    requires Known(s)
  {
    && s.current.Some?
    && match op
       case ScheduleNow => s.tasks[s.current.value].state == Running
       case YieldNow => s.tasks[s.current.value].state == Running
       case PreemptAt(_) => true
       case TimerTick => true
       case _ => false
  }

  /** The tasks to choose from, in their order. */
  function Candidates(s: Sched, op: Op): (q: seq<nat>)
    requires Known(s)
    ensures forall t | t in q :: t in s.tasks
  {
    if GoesBack(s, op) then s.queue + [s.current.value] else s.queue
  }

  /** Position `b` of `q` holds the first of the tasks of the highest priority. */
  predicate FirstOfBest(s: Sched, q: seq<nat>, b: nat)
    requires Known(s) && forall t | t in q :: t in s.tasks
  {
    IsFirstBest(s.(queue := q), b)
  }

  // ---------------------------------------------------------------- the choice

  /** What the choice is made from: a state without a running task, the candidates queued and the priorities kept. */
  predicate Poised(s: Sched, q: seq<nat>, s1: Sched)
    requires Known(s) && forall t | t in q :: t in s.tasks
  {
    Idle(s1) && s1.queue == q && forall t | t in q :: t in s1.tasks && s1.tasks[t].priority == s.tasks[t].priority
  }

  lemma SameBest(s: Sched, q: seq<nat>, s1: Sched, b: nat)
    requires Known(s) && (forall t | t in q :: t in s.tasks) && Poised(s, q, s1)
    ensures FirstOfBest(s, q, b) <==> IsFirstBest(s1, b)
  {
    var s2 := s.(queue := q);
    forall j | 0 <= j < |q| ensures PriorityAt(s2, j) == PriorityAt(s1, j) { assert q[j] in q; }
  }

  lemma BestIsOne(s: Sched, a: nat, b: nat)
    requires Known(s) && IsFirstBest(s, a) && IsFirstBest(s, b)
    ensures a == b
  {
    assert PriorityAt(s, a) <= PriorityAt(s, b) && PriorityAt(s, b) <= PriorityAt(s, a);
  }

  /** Exactly one candidate is the first of the highest priority. */
  lemma PicksBest(s: Sched, q: seq<nat>, s1: Sched)
    requires Known(s) && (forall t | t in q :: t in s.tasks) && Poised(s, q, s1)
    ensures Pick(s1).None? <==> q == []
    ensures Pick(s1).Some? ==> FirstOfBest(s, q, Pick(s1).value)
    ensures forall b: nat | FirstOfBest(s, q, b) :: Pick(s1) == Some(b)
  {
    IdleAllReady(s1);
    PickFindsBest(s1);
    if q != [] {
      SameBest(s, q, s1, Pick(s1).value);
      forall b: nat | FirstOfBest(s, q, b) ensures b == Pick(s1).value {
        BestIsOne(s.(queue := q), b, Pick(s1).value);
      }
    }
  }

  /** `r` follows from a choice among `q`: the first of the highest priority is current and running, the others wait in
      their order; with none to choose from the current task stays. */
  ghost predicate Chosen(s: Sched, q: seq<nat>, r: Sched)
    requires Known(s) && forall t | t in q :: t in s.tasks
  {
    if q == [] then r.current == s.current && r.queue == []
    else
      exists b: nat | FirstOfBest(s, q, b) ::
        && r.current == Some(q[b]) && r.queue == q[..b] + q[b + 1..]
        && q[b] in r.tasks && r.tasks[q[b]].state == Running
  }

  lemma DispatchChosen(s: Sched, q: seq<nat>, s1: Sched, r: Sched)
    requires Known(s) && (forall t | t in q :: t in s.tasks) && Poised(s, q, s1) && Pick(s1).Some?
    requires SameTasks(Dispatch(s1, Pick(s1).value), r)
    ensures Chosen(s, q, r)
  {
    PicksBest(s, q, s1);
    var b := Pick(s1).value;
    assert FirstOfBest(s, q, b) && r.current == Some(q[b]);
  }

  lemma ScheduleIs(s0: Sched, s1: Sched, r: Sched)
    requires Known(s0) && s1 == Requeue(s0.(needReschedule := false)) && r == Schedule(s0)
    ensures Pick(s1).None? ==> r == s1
    ensures Pick(s1).Some? ==> SameTasks(Dispatch(s1, Pick(s1).value), r)
    ensures s1.current == s0.current
  {
  }

  lemma ScheduleChoice(s: Sched, q: seq<nat>, s0: Sched, s1: Sched, r: Sched)
    requires Known(s) && (forall t | t in q :: t in s.tasks) && Poised(s, q, s1)
    requires Known(s0) && s1 == Requeue(s0.(needReschedule := false)) && s0.current == s.current && r == Schedule(s0)
    ensures Chosen(s, q, r)
  {
    ScheduleIs(s0, s1, r);
    PicksBest(s, q, s1);
    if q != [] { DispatchChosen(s, q, s1, r); }
  }

  lemma PreemptChoice(s: Sched, rsp: nat, q: seq<nat>, s1: Sched, r: Sched)
    requires Known(s) && (forall t | t in q :: t in s.tasks) && Poised(s, q, s1)
    requires s.preemptEnabled && s1 == SaveCurrent(s, rsp) && r == Preempt(s, rsp).0
    ensures Chosen(s, q, r)
  {
    PicksBest(s, q, s1);
    if q != [] { DispatchChosen(s, q, s1, r); }
  }

  // ---------------------------------------------------------------- before the choice

  /** The current task, ready and behind the others. */
  lemma PoisedBehind(s: Sched, c: nat, task: Task, q: seq<nat>, s1: Sched)
    requires SchedHalt.Good(s) && s.current == Some(c) && task.state == Ready && task.priority == s.tasks[c].priority
    requires s1.tasks == s.tasks[c := task] && s1.queue == q == s.queue + [c] && s1.all == s.all
    requires s1.nextId == s.nextId && s1.current == s.current
    ensures Poised(s, q, s1)
  {
    if Wf(s) { QueueTask(s, c, task, s1); } else { SchedHalt.HaltedQueue(s, c, task, s1); }
  }

  /** The current task, halted. */
  lemma PoisedHalted(s: Sched, c: nat, task: Task, s1: Sched)
    requires SchedHalt.Good(s) && s.current == Some(c) && task.state != Ready && task.state != Running
    requires task.priority == s.tasks[c].priority && SameTasks(Put(s, c, task), s1)
    ensures Poised(s, s.queue, s1)
  {
    if Wf(s) { HaltCurrent(s, c, task); } else { SchedHalt.HaltedPut(s, c, task); }
    SameTasksSameWf(Put(s, c, task), s1);
  }

  /** No running task to begin with. */
  lemma PoisedAlready(s: Sched, s1: Sched)
    requires SchedHalt.Good(s) && SameTasks(s, s1)
    requires s.current.Some? ==> s.tasks[s.current.value].state != Running
    ensures Poised(s, s.queue, s1)
  {
    SameTasksSameWf(s, s1);
  }

  lemma RequeueIs(s: Sched, c: nat, s0: Sched, s1: Sched, task: Task)
    requires Known(s) && s.current == Some(c) && task.state == Running && SameTasks(Put(s, c, task), s0)
    requires Known(s0) && s1 == Requeue(s0.(needReschedule := false))
    ensures s1.tasks == s.tasks[c := Rested(task).(state := Ready)] && s1.queue == s.queue + [c] && s1.all == s.all
    ensures s1.nextId == s.nextId && s1.current == s.current
  {
  }

  /** `schedule` after the current task, running, had its record changed. */
  lemma RunningChosen(s: Sched, c: nat, task: Task, q: seq<nat>, s0: Sched)
    requires SchedHalt.Good(s) && s.current == Some(c) && task.state == Running && q == s.queue + [c]
    requires task.priority == s.tasks[c].priority && Known(s0) && SameTasks(Put(s, c, task), s0)
    ensures Chosen(s, q, Schedule(s0))
  {
    var s1 := Requeue(s0.(needReschedule := false));
    RequeueIs(s, c, s0, s1, task);
    PoisedBehind(s, c, Rested(task).(state := Ready), q, s1);
    ScheduleChoice(s, q, s0, s1, Schedule(s0));
  }

  /** `schedule` when no task is running. */
  lemma StillChosen(s: Sched, s0: Sched, r: Sched)
    requires SchedHalt.Good(s) && Known(s0) && SameTasks(s, s0) && r == Schedule(s0)
    requires s.current.Some? ==> s.tasks[s.current.value].state != Running
    ensures Chosen(s, s.queue, r)
  {
    var s1 := s0.(needReschedule := false);
    PoisedAlready(s, s1);
    ScheduleChoice(s, s.queue, s0, s1, r);
  }

  /** `schedule` on the state as it is, or with a switch asked for. */
  lemma ScheduleChosen(s: Sched, op: Op, s0: Sched)
    requires SchedHalt.Good(s) && (op.ScheduleNow? || op.YieldNow?) && s0 == s.(needReschedule := s0.needReschedule)
    ensures Chosen(s, Candidates(s, op), Schedule(s0))
  {
    if GoesBack(s, op) {
      RunningChosen(s, s.current.value, s.tasks[s.current.value], Candidates(s, op), s0);
    } else {
      StillChosen(s, s0, Schedule(s0));
    }
  }

  lemma PoisedSaved(s: Sched, rsp: nat, q: seq<nat>, s1: Sched)
    requires SchedHalt.Good(s) && s1 == SaveCurrent(s, rsp)
    requires q == if s.current.Some? then s.queue + [s.current.value] else s.queue
    ensures Poised(s, q, s1)
  {
    match s.current
    case None => PoisedAlready(s, s1);
    case Some(c) => PoisedBehind(s, c, s1.tasks[c], q, s1);
  }

  lemma PreemptChosen(s: Sched, rsp: nat, q: seq<nat>)
    requires SchedHalt.Good(s) && s.preemptEnabled
    requires q == if s.current.Some? then s.queue + [s.current.value] else s.queue
    ensures Chosen(s, q, Preempt(s, rsp).0)
  {
    var s1 := SaveCurrent(s, rsp);
    PoisedSaved(s, rsp, q, s1);
    PreemptChoice(s, rsp, q, s1, Preempt(s, rsp).0);
  }

  lemma HaltChosen(s: Sched, c: nat, task: Task, s0: Sched, r: Sched)
    requires SchedHalt.Good(s) && s.current == Some(c) && task.state != Ready && task.state != Running
    requires task.priority == s.tasks[c].priority
    requires Known(s0) && SameTasks(Put(s, c, task), s0) && r == Schedule(s0)
    ensures Chosen(s, s.queue, r)
  {
    var s1 := s0.(needReschedule := false);
    PoisedHalted(s, c, task, s1);
    ScheduleChoice(s, s.queue, s0, s1, r);
  }

  lemma BlockChosen(s: Sched, s0: Sched)
    requires SchedHalt.Good(s) && s0 == BlockCurrent(s)
    ensures Chosen(s, s.queue, Schedule(s0))
  {
    match s.current
    case None => StillChosen(s, s0, Schedule(s0));
    case Some(c) => HaltChosen(s, c, s.tasks[c].(state := Blocked), s0, Schedule(s0));
  }

  lemma ExitChosen(s: Sched, code: int)
    requires SchedHalt.Good(s)
    ensures Chosen(s, s.queue, TerminateCurrent(s, code))
  {
    match s.current
    case None => StillChosen(s, s.(needReschedule := true), TerminateCurrent(s, code));
    case Some(c) =>
      var task := s.tasks[c].(state := Terminated, exitCode := code);
      HaltChosen(s, c, task, Put(s, c, task).(needReschedule := true), TerminateCurrent(s, code));
  }

  lemma TickSchedules(s: Sched, c: nat, s0: Sched, s2: Sched)
    requires Known(s) && s.current == Some(c) && TickChooses(s)
    requires s0 == s.(ticks := s.ticks + 1) && s2 == Put(s0, c, Charged(s.tasks[c])).(needReschedule := true)
    ensures Timer(s0) == Schedule(s2)
  {
    StopsIffNotRunning(s.tasks[c]);
  }

  lemma ChargedRuns(task: Task)
    requires SignalState(task) == Running
    ensures Charged(task).state == Running && Charged(task).priority == task.priority
  {
    StopsIffNotRunning(task);
  }

  lemma TickCurrentChosen(s: Sched, c: nat, s0: Sched, task: Task, q: seq<nat>, r: Sched)
    requires SchedHalt.Good(s) && s.current == Some(c) && TickChooses(s) && s0 == s.(ticks := s.ticks + 1)
    requires task == Charged(s.tasks[c]) && q == s.queue + [c] && r == Timer(s0)
    ensures Chosen(s, q, r)
  {
    var s2 := Put(s0, c, task).(needReschedule := true);
    TickSchedules(s, c, s0, s2);
    ChargedRuns(s.tasks[c]);
    RunningChosen(s, c, task, q, s2);
  }

  lemma TimerStarts(s: Sched, s0: Sched)
    requires Known(s) && TickChooses(s) && s.current.None? && s0 == s.(ticks := s.ticks + 1)
    ensures Timer(s0) == Schedule(s0)
  {
  }

  lemma TickStartChosen(s: Sched, s0: Sched, r: Sched)
    requires SchedHalt.Good(s) && TickChooses(s) && s.current.None? && s0 == s.(ticks := s.ticks + 1) && r == Timer(s0)
    ensures Chosen(s, s.queue, r)
  {
    TimerStarts(s, s0);
    StillChosen(s, s0, r);
  }

  lemma TickChosen(s: Sched, s0: Sched, q: seq<nat>, r: Sched)
    requires SchedHalt.Good(s) && TickChooses(s) && s0 == s.(ticks := s.ticks + 1) && r == Timer(s0)
    requires q == if s.current.Some? then s.queue + [s.current.value] else s.queue
    ensures Chosen(s, q, r)
  {
    match s.current
    case None => TickStartChosen(s, s0, r);
    case Some(c) => TickCurrentChosen(s, c, s0, Charged(s.tasks[c]), q, r);
  }

  /** Whenever an operation makes the scheduler choose, the first task of the highest priority among the waiting ones,
      and the current one if it goes back among them, is current and running afterwards, and the others wait in their
      order. */
  lemma StepChooses(s: Sched, op: Op)
    requires SchedHalt.Good(s) && Chooses(s, op)
    ensures Chosen(s, Candidates(s, op), Step(s, op))
  {
    match op
    case ScheduleNow => ScheduleChosen(s, op, s);
    case YieldNow => ScheduleChosen(s, op, s.(needReschedule := true));
    case PreemptAt(rsp) => PreemptChosen(s, rsp, Candidates(s, op));
    case BlockAndSchedule => BlockChosen(s, BlockCurrent(s));
    case Exit(code) => ExitChosen(s, code);
    case TimerTick =>
      var s0 := s.(ticks := s.ticks + 1);
      TickIsTimer(s, s0);
      TickChosen(s, s0, Candidates(s, op), Timer(s0));
  }

  // ---------------------------------------------------------------- a tick without a current task

  /** The task at place `b` of the queue becomes the current one. */
  function Started(s: Sched, b: nat): Sched
    requires b < |s.queue| && s.queue[b] in s.tasks
  {
    var t := s.queue[b];
    s.(tasks := s.tasks[t := s.tasks[t].(state := Running)], queue := s.queue[..b] + s.queue[b + 1..],
       current := Some(t), needReschedule := false, switches := s.switches + 1)
  }

  lemma StartsTask(s: Sched, b: nat, s1: Sched, r: Sched)
    requires Known(s) && s.current.None? && s1 == s.(needReschedule := false) && r == Schedule(s) && Pick(s1) == Some(b)
    ensures r == Started(s, b)
  {
  }

  lemma NothingToStart(s: Sched, r: Sched)
    requires Known(s) && s.current.None? && s.queue == [] && r == Schedule(s)
    ensures r == s.(needReschedule := false)
  {
  }

  lemma StartPicks(s: Sched, s1: Sched)
    requires Wf(s) && s.current.None? && s1 == s.(ticks := s.ticks + 1, needReschedule := false)
    ensures Pick(s1).Some? <==> s.queue != []
    ensures Pick(s1).Some? ==> FirstOfBest(s, s.queue, Pick(s1).value)
    ensures forall b: nat | FirstOfBest(s, s.queue, b) :: Pick(s1) == Some(b)
  {
    PoisedAlready(s, s1);
    PicksBest(s, s.queue, s1);
  }

  /** With preemption on and no task current, a tick when no switch is asked for is only counted.  When one is asked
      for, the first of the waiting tasks of the highest priority is taken off the queue, runs and is current, and this
      is counted as a switch; no other task changes. */
  lemma TickWithoutCurrent(s: Sched, b: nat)
    requires Wf(s) && s.preemptEnabled && s.current.None?
    ensures !s.needReschedule ==> Tick(s) == s.(ticks := s.ticks + 1)
    ensures s.needReschedule && s.queue == [] ==> Tick(s) == s.(ticks := s.ticks + 1, needReschedule := false)
    ensures s.needReschedule && FirstOfBest(s, s.queue, b) ==>
      Tick(s) == Started(s.(ticks := s.ticks + 1), b)
    ensures s.queue != [] ==> exists k: nat :: FirstOfBest(s, s.queue, k)
  {
    var s0 := s.(ticks := s.ticks + 1);
    var s1 := s0.(needReschedule := false);
    TickIsTimer(s, s0);
    StartPicks(s, s1);
    if s.needReschedule {
      TimerStarts(s, s0);
      if s.queue == [] {
        NothingToStart(s0, Tick(s));
      } else if FirstOfBest(s, s.queue, b) {
        StartsTask(s0, b, s1, Tick(s));
      }
    }
  }
}
