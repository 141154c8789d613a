/** Runs of the scheduler of src/sched/scheduler.rs in which the current task is halted: blocked, stopped or killed, but
    not yet switched away from. */
module SchedHalt {
  import opened Kernel
  import Signals
  import opened Sched
  import opened SchedInvariant
  import opened SchedRuns

  /** The invariant of all runs: well formed, or well formed but for a current task that is halted. */
  predicate Good(s: Sched) { Wf(s) || Halted(s) }

  /** The operation queues no task that is queued or current, and does not drop a terminated task that is still
      current. */
  predicate Tame(s: Sched, op: Op)
    requires Known(s)
  {
    match op
    case UnblockId(id) => !(s.current == Some(id) && s.tasks[id].state == Blocked)
    case Bg(id) =>
      id in s.all && s.tasks[id].foreground == Stopped ==> s.tasks[id].state != Ready && s.current != Some(id)
    case CleanUp => s.current.Some? ==> s.tasks[s.current.value].state != Terminated
    case _ => true
  }

  // ---------------------------------------------------------------- changes to a halted state

  lemma SameTasksSameHalted(s: Sched, s1: Sched)
    requires SameTasks(s, s1)
    ensures Halted(s) <==> Halted(s1)
    ensures Wf(s) <==> Wf(s1)
  {
  }

  /** A halted state stays halted when a task keeps its state, and when the current task is halted in another way. */
  lemma HaltedPut(s: Sched, t: nat, task: Task)
    requires Halted(s) && t in s.tasks
    requires task.state == s.tasks[t].state || (s.current == Some(t) && task.state != Ready && task.state != Running)
    ensures Halted(Put(s, t, task))
  {
  }

  lemma HaltedQueue(s: Sched, t: nat, task: Task, s1: Sched)
    requires Halted(s) && t in s.all && t !in s.queue && task.state == Ready
    requires s1.tasks == s.tasks[t := task] && s1.queue == s.queue + [t] && s1.all == s.all && s1.nextId == s.nextId
    requires s1.current == s.current
    ensures Idle(s1) && s1.queue != [] && !Wf(s1)
    ensures Halted(s1) <==> s.current != Some(t)
  {
    AppendNew(s.queue, t);
    assert s1.tasks[s1.current.value].state != Running;
  }

  lemma HaltedSchedule(s: Sched, r: Sched)
    requires Halted(s) && r == Schedule(s)
    ensures Good(r)
  {
    ScheduleAfterHalt(s);
  }

  lemma HaltedPreempt(s: Sched, rsp: nat, r: Sched)
    requires Halted(s) && r == Preempt(s, rsp).0
    ensures Good(r) && (s.preemptEnabled ==> Wf(r))
  {
    if s.preemptEnabled {
      var c := s.current.value;
      var s1 := SaveCurrent(s, rsp);
      HaltedQueue(s, c, Rested(s.tasks[c]).(savedRsp := rsp, state := Ready), s1);
      IdlePick(s1);
      SameTasksSameWf(Dispatch(s1, Pick(s1).value), r);
    }
  }

  /** A halted current task that a tick puts back to work makes the state well formed. */
  lemma HaltedRun(s: Sched, c: nat, task: Task)
    requires Halted(s) && s.current == Some(c) && task.state == Running
    ensures Wf(Put(s, c, task))
  {
  }

  lemma HaltedTickCurrent(s: Sched, c: nat)
    requires Halted(s) && s.current == Some(c)
    ensures Good(TickCurrent(s, c))
  {
    var task := AfterSignal(s.tasks[c]);
    if StopsAt(s.tasks[c]) {
      HaltedPut(s, c, task);
      SameTasksSameHalted(Put(s, c, task), TickHalted(s, c));
    } else {
      var s1 := Put(s, c, Spent(task));
      HaltedRun(s, c, Spent(task));
      SameTasksSameWf(s1, s1.(needReschedule := true));
      ScheduleKeepsWf(s1.(needReschedule := true));
    }
  }

  lemma HaltedTick(s: Sched, s1: Sched, r: Sched)
    requires Halted(s) && s1 == s.(ticks := s.ticks + 1) && r == Tick(s)
    ensures Good(r)
  {
    SameTasksSameHalted(s, s1);
    TickIsTimer(s, s1);
    HaltedTickCurrent(s1, s.current.value);
  }

  lemma HaltedBlock(s: Sched)
    requires Halted(s)
    ensures Halted(BlockCurrent(s))
  {
    var c := s.current.value;
    HaltedPut(s, c, s.tasks[c].(state := Blocked));
    SameTasksSameHalted(WithState(s, c, Blocked), BlockCurrent(s));
  }

  lemma HaltedExit(s: Sched, code: int, r: Sched)
    requires Halted(s) && r == TerminateCurrent(s, code)
    ensures Good(r)
  {
    var c := s.current.value;
    var task := s.tasks[c].(state := Terminated, exitCode := code);
    var s1 := Put(s, c, task).(needReschedule := true);
    HaltedPut(s, c, task);
    SameTasksSameHalted(Put(s, c, task), s1);
    HaltedSchedule(s1, r);
  }

  lemma HaltedUnblock(s: Sched, id: nat)
    requires Halted(s)
    ensures Good(Unblock(s, id).0) <==> Tame(s, UnblockId(id))
  {
    if id in s.all && s.tasks[id].state == Blocked {
      HaltedQueue(s, id, s.tasks[id].(state := Ready), Unblock(s, id).0);
    }
  }

  lemma HaltedKill(s: Sched, id: nat, code: int)
    requires Halted(s)
    ensures Halted(TerminateTask(s, id, code).0)
  {
    if id > 2 && id in s.all {
      WithoutNoDuplicates(s.queue, id);
      forall x
        ensures x in Without(s.queue, id) <==> x in s.queue && x != id
      {
        WithoutMeaning(s.queue, id, x);
      }
    }
  }

  lemma HaltedBg(s: Sched, id: nat)
    requires Halted(s)
    ensures Good(ToBackground(s, id).0) <==> Tame(s, Bg(id))
  {
    if id in s.all && s.tasks[id].foreground == Stopped {
      var s1 := ToBackground(s, id).0;
      if s.tasks[id].state == Ready {
        TwiceInQueue(s.queue, id);
      } else {
        HaltedQueue(s, id, s1.tasks[id], s1);
      }
    }
  }

  lemma HaltedCleanup(s: Sched)
    requires Halted(s)
    ensures Good(Cleanup(s)) <==> Tame(s, CleanUp)
  {
    var dead := TerminatedIn(s.tasks, s.all);
    WithoutAllNoDuplicates(s.queue, dead);
    forall x
      ensures x in Cleanup(s).queue <==> x in s.queue && x !in dead
      ensures x in Cleanup(s).all <==> x in s.all && x !in dead
    {
      WithoutAllMeaning(s.queue, dead, x);
      WithoutAllMeaning(s.all, dead, x);
    }
  }

  lemma HaltedCreate(s: Sched, priority: Priority, foreground: Foreground, rsp: nat)
    requires Halted(s)
    ensures Halted(Create(s, priority, foreground, rsp))
  {
    AppendNew(s.queue, s.nextId);
  }

  // ---------------------------------------------------------------- every operation

  lemma HaltedSignal(s: Sched, id: nat, signal: nat)
    requires Halted(s)
    ensures Halted(SendSignal(s, id, signal).0)
  {
    if id in s.all { HaltedPut(s, id, s.tasks[id].(pending := Signals.Send(s.tasks[id].pending, signal))); }
  }

  lemma HaltedFg(s: Sched, id: nat)
    requires Halted(s)
    ensures Halted(ToForeground(s, id).0)
  {
    if id in s.all { HaltedPut(s, id, s.tasks[id].(foreground := Foreground)); }
  }

  lemma HaltedYield(s: Sched, s1: Sched, r: Sched)
    requires Halted(s) && s1 == s.(needReschedule := true) && r == Schedule(s1)
    ensures Good(r)
  {
    SameTasksSameHalted(s, s1);
    HaltedSchedule(s1, r);
  }

  lemma HaltedBlockAndSchedule(s: Sched, s1: Sched, r: Sched)
    requires Halted(s) && s1 == BlockCurrent(s) && r == Schedule(s1)
    ensures Good(r)
  {
    HaltedBlock(s);
    HaltedSchedule(s1, r);
  }

  lemma HaltedDirect(s: Sched, op: Op, r: Sched)
    requires Halted(s) && Direct(op) && r == Step(s, op)
    ensures Good(r) <==> Tame(s, op)
  {
    match op {
      case CreateTask(priority, foreground, rsp) => HaltedCreate(s, priority, foreground, rsp);
      case Block => HaltedBlock(s);
      case UnblockId(id) => HaltedUnblock(s, id);
      case Kill(id, code) => HaltedKill(s, id, code);
      case Signal(id, signal) => HaltedSignal(s, id, signal);
      case Bg(id) => HaltedBg(s, id);
      case Fg(id) => HaltedFg(s, id);
      case CleanUp => HaltedCleanup(s);
      case SetPreemption(enabled) => SameTasksSameHalted(s, s.(preemptEnabled := enabled));
    }
  }

  lemma HaltedSwitch(s: Sched, op: Op, r: Sched)
    requires Halted(s) && !Direct(op) && r == Step(s, op)
    ensures Good(r)
  {
    match op {
      case ScheduleNow => HaltedSchedule(s, r);
      case YieldNow => HaltedYield(s, s.(needReschedule := true), r);
      case PreemptAt(rsp) => HaltedPreempt(s, rsp, r);
      case TimerTick => HaltedTick(s, s.(ticks := s.ticks + 1), r);
      case BlockAndSchedule => HaltedBlockAndSchedule(s, BlockCurrent(s), r);
      case Exit(code) => HaltedExit(s, code, r);
    }
  }

  /** From a state whose current task is halted, an operation ends in such a state or in a well-formed one if and only
      if it is tame. */
  lemma HaltedStep(s: Sched, op: Op)
    requires Halted(s)
    ensures Good(Step(s, op)) <==> Tame(s, op)
  {
    if Direct(op) { HaltedDirect(s, op, Step(s, op)); } else { HaltedSwitch(s, op, Step(s, op)); }
  }

  lemma WfExit(s: Sched, code: int, r: Sched)
    requires Wf(s) && r == TerminateCurrent(s, code)
    ensures Good(r)
  {
    TerminateCurrentKeepsWf(s, code);
    if s.current.Some? && s.queue == [] {
      var c := s.current.value;
      var task := s.tasks[c].(state := Terminated, exitCode := code);
      var s1 := Put(s, c, task).(needReschedule := true);
      HaltCurrent(s, c, task);
      SameTasksSameHalted(Put(s, c, task), s1);
      HaltedSchedule(s1, r);
    }
  }

  lemma WfKill(s: Sched, id: nat, code: int)
    requires Wf(s)
    ensures Good(TerminateTask(s, id, code).0)
  {
    TerminateTaskKeepsWf(s, id, code);
    if id > 2 && s.current == Some(id) {
      var task := s.tasks[id].(state := Terminated, exitCode := code);
      HaltCurrent(s, id, task);
      WithoutAbsent(s.queue, id);
      SameTasksSameHalted(Put(s, id, task), TerminateTask(s, id, code).0);
    }
  }

  lemma {:induction false} WithoutAbsent(q: seq<nat>, id: nat)
    requires id !in q
    ensures Without(q, id) == q
  {
    if q != [] { WithoutAbsent(q[1..], id); }
  }

  lemma WfBlockAndSchedule(s: Sched, s1: Sched, r: Sched)
    requires Wf(s) && s1 == BlockCurrent(s) && r == Schedule(s1)
    ensures Good(r)
  {
    BlockCurrentKeepsWf(s);
    if s.current.Some? { HaltedSchedule(s1, r); } else { ScheduleKeepsWf(s); }
  }

  lemma WfBg(s: Sched, id: nat)
    requires Wf(s)
    ensures Good(ToBackground(s, id).0) <==> Tame(s, Bg(id))
  {
    ToBackgroundKeepsWf(s, id);
    if ResumesActive(s, id) {
      if s.tasks[id].state == Ready { TwiceInQueue(s.queue, id); }
    }
  }

  lemma WfStep(s: Sched, op: Op)
    requires Wf(s)
    ensures Good(Step(s, op)) <==> Tame(s, op)
  {
    match op {
      case TimerTick => TickKeepsWf(s);
      case Block => BlockCurrentKeepsWf(s);
      case BlockAndSchedule => WfBlockAndSchedule(s, BlockCurrent(s), Step(s, op));
      case Exit(code) => WfExit(s, code, Step(s, op));
      case Kill(id, code) => WfKill(s, id, code);
      case Bg(id) => WfBg(s, id);
      case _ =>
        StepKeepsWfIffSafe(s, op);
    }
  }

  /** Whatever the state of the current task, the invariant of all runs is kept if and only if the operation is tame. */
  lemma StepKeepsGoodIffTame(s: Sched, op: Op)
    requires Good(s)
    ensures Good(Step(s, op)) <==> Tame(s, op)
  {
    if Wf(s) { WfStep(s, op); } else { HaltedStep(s, op); }
  }

  // ---------------------------------------------------------------- every run

  ghost predicate TameRun(trace: seq<Sched>, ops: seq<Op>)
    requires IsRun(trace, ops)
  {
    AllKnown(trace, ops);
    forall k | 0 <= k < |ops| :: Tame(trace[k], ops[k])
  }

  /** Over every run of tame operations every state is well formed, or so but for a halted current task. */
  lemma {:induction false} RunKeepsGood(trace: seq<Sched>, ops: seq<Op>, k: nat)
    requires IsRun(trace, ops) && TameRun(trace, ops) && Good(trace[0]) && k < |trace|
    ensures Good(trace[k])
  {
    if k > 0 {
      var j := k - 1;
      RunKeepsGood(trace, ops, j);
      StepAt(trace, ops, |ops|, j, k);
      StepKeepsGoodIffTame(trace[j], ops[j]);
      assert Tame(trace[j], ops[j]);
    }
  }

  // ---------------------------------------------------------------- terminated tasks

  /** A task that becomes current is running. */
  predicate RunsIfNew(s: Sched, s1: Sched)
    requires Known(s1)
  {
    s1.current == s.current || (s1.current.Some? && s1.tasks[s1.current.value].state == Running)
  }

  lemma ScheduleRuns(s: Sched, s0: Sched)
    requires Known(s0) && s.current == s0.current
    ensures RunsIfNew(s, Schedule(s0))
  {
  }

  lemma TickRuns(s: Sched, s1: Sched)
    requires Known(s) && s1 == s.(ticks := s.ticks + 1)
    ensures RunsIfNew(s, Tick(s))
  {
    TickIsTimer(s, s1);
    if s.preemptEnabled {
      match s.current {
        case None => ScheduleRuns(s, s1);
        case Some(c) => ScheduleRuns(s, Put(s1, c, Charged(s.tasks[c])).(needReschedule := true));
      }
    }
  }

  lemma StepRuns(s: Sched, op: Op)
    requires Known(s)
    ensures RunsIfNew(s, Step(s, op))
  {
    match op {
      case ScheduleNow => ScheduleRuns(s, s);
      case YieldNow => ScheduleRuns(s, s.(needReschedule := true));
      case TimerTick => TickRuns(s, s.(ticks := s.ticks + 1));
      case BlockAndSchedule => ScheduleRuns(s, BlockCurrent(s));
      case Exit(code) =>
        if s.current.None? {
          ScheduleRuns(s, s.(needReschedule := true));
        } else {
          var c := s.current.value;
          ScheduleRuns(s, Put(s, c, s.tasks[c].(state := Terminated, exitCode := code)).(needReschedule := true));
        }
      case _ =>
    }
  }

  ghost predicate NeverRevived(trace: seq<Sched>, ops: seq<Op>, j: nat, k: nat, t: nat)
    requires IsRun(trace, ops) && j <= k < |trace|
  {
    AllKnown(trace, ops);
    forall i | j <= i < k && t in trace[i].tasks :: !Revives(trace[i], ops[i], t)
  }

  /** Over every run of tame operations a terminated task that none of them revives stays terminated and off the queue,
      and once it is off the processor it never returns to it. */
  lemma {:induction false} DeadUntilRevived(trace: seq<Sched>, ops: seq<Op>, j: nat, k: nat, t: nat)
    requires IsRun(trace, ops) && TameRun(trace, ops) && Good(trace[0]) && j <= k < |trace|
    requires Dead(trace[j], t) && NeverRevived(trace, ops, j, k, t)
    ensures Dead(trace[k], t) && t !in trace[k].queue
    ensures trace[j].current != Some(t) ==> trace[k].current != Some(t)
    decreases k
  {
    RunKeepsGood(trace, ops, k);
    if j < k {
      var i := k - 1;
      DeadUntilRevived(trace, ops, j, i, t);
      StepAt(trace, ops, |ops|, i, k);
      DeadStaysDeadIff(trace[i], ops[i], t);
      StepRuns(trace[i], ops[i]);
    }
  }

  // ---------------------------------------------------------------- ticks with a halted current task

  /** The signals that ticks take from the task, in ascending order. */
  function Due(task: Task): set<nat> { Signals.SetOf(task.pending) - Signals.SetOf(task.blocked) }

  /** The task is marked stopped and is to take a SIGCONT. */
  predicate Continues(task: Task) { task.foreground == Stopped && Signals.SIGCONT in Due(task) }

  /** The signals that ticks take from the task before a SIGCONT. */
  function Earlier(task: Task): set<nat> { set x | x in Due(task) && x < Signals.SIGCONT }

  /** Preemption is on and the current task is neither running nor ready. */
  predicate HaltedNow(s: Sched) {
    Known(s) && s.preemptEnabled && s.current.Some? && !Active(s.tasks[s.current.value])
  }

  /** The halted current task is still current and halted, and nothing was queued or dequeued. */
  predicate Holds(s: Sched, s1: Sched) { HaltedNow(s1) && s1.current == s.current && s1.queue == s.queue }

  function TickN(s: Sched, n: nat): (r: Sched)
    requires Known(s)
    ensures Known(r)
    decreases n
  {
    if n == 0 then s else Tick(TickN(s, n - 1))
  }

  /** Each of the next `n` ticks leaves the halted current task as it is. */
  ghost predicate HoldsFor(s: Sched, n: nat)
    requires Known(s)
  {
    forall m: nat | m <= n :: Holds(s, TickN(s, m))
  }

  /** A tick takes the least of the signals due. */
  lemma SignalTaken(task: Task)
    ensures NextSignal(task).None? ==> Due(task) == {} && AfterSignal(task) == task
    ensures NextSignal(task).Some? ==>
      && Signals.IsLeast(Due(task), NextSignal(task).value)
      && Due(AfterSignal(task)) == Due(task) - {NextSignal(task).value}
  {
    Signals.PopIsRemoveLeast(task.pending, task.blocked);
    Signals.EmptyMask(task.pending);
  }

  lemma EarlierTaken(task: Task, x: nat)
    requires NextSignal(task) == Some(x) && x < Signals.SIGCONT
    ensures x in Earlier(task) && |Earlier(AfterSignal(task))| == |Earlier(task)| - 1
  {
    SignalTaken(task);
    assert Earlier(AfterSignal(task)) == Earlier(task) - {x};
  }

  lemma NoneEarlier(task: Task)
    requires NextSignal(task).None? || NextSignal(task).value >= Signals.SIGCONT
    ensures Earlier(task) == {}
    ensures Signals.SIGCONT in Due(task) <==> NextSignal(task) == Some(Signals.SIGCONT)
    ensures Signals.SIGCONT !in Due(AfterSignal(task))
  {
    SignalTaken(task);
  }

  /** One tick: a SIGCONT that comes first continues a stopped task; any other signal brings a SIGCONT one tick nearer
      and leaves the mark. */
  lemma SignalNearer(task: Task)
    requires !Active(task)
    ensures Active(AfterSignal(task)) <==> Continues(task) && Earlier(task) == {}
    ensures Active(AfterSignal(task)) <==> !StopsAt(task)
    ensures Continues(task) && Earlier(task) != {} ==>
      Continues(AfterSignal(task)) && |Earlier(AfterSignal(task))| == |Earlier(task)| - 1
    ensures !Continues(task) ==> !Continues(AfterSignal(task))
  {
    var r := NextSignal(task);
    if r.Some? && r.value < Signals.SIGCONT {
      SignalTaken(task);
      EarlierTaken(task, r.value);
    } else {
      NoneEarlier(task);
    }
  }

  lemma TickHolds(s: Sched, c: nat)
    requires HaltedNow(s) && s.current == Some(c)
    ensures Holds(s, Tick(s)) <==> !(Continues(s.tasks[c]) && Earlier(s.tasks[c]) == {})
    ensures Holds(s, Tick(s)) ==> Tick(s).tasks[c] == AfterSignal(s.tasks[c])
    ensures !Holds(s, Tick(s)) ==> c in Tick(s).tasks && Active(Tick(s).tasks[c])
  {
    var s1 := s.(ticks := s.ticks + 1);
    SignalNearer(s.tasks[c]);
    TickIsTimer(s, s1);
    if !StopsAt(s.tasks[c]) { RunningStaysActive(s1, c); }
  }

  lemma HoldsTwice(s: Sched, s1: Sched, s2: Sched)
    requires Holds(s, s1) && Holds(s1, s2)
    ensures Holds(s, s2)
  {
  }

  /** After `k` of the signals due before a SIGCONT, if there is one, the task is still halted, and as many are left. */
  predicate HeldWith(s: Sched, c: nat, k: nat, r: Sched)
    requires c in s.tasks
  {
    && Holds(s, r) && c in r.tasks
    && (Continues(r.tasks[c]) <==> Continues(s.tasks[c]))
    && (Continues(s.tasks[c]) ==> |Earlier(r.tasks[c])| == |Earlier(s.tasks[c])| - k)
  }

  lemma HeldStep(s: Sched, c: nat, k: nat, r: Sched, r1: Sched)
    requires HaltedNow(s) && s.current == Some(c) && HeldWith(s, c, k, r) && r1 == Tick(r)
    requires Continues(s.tasks[c]) ==> k < |Earlier(s.tasks[c])|
    ensures HeldWith(s, c, k + 1, r1)
  {
    TickHolds(r, c);
    SignalNearer(r.tasks[c]);
    HoldsTwice(s, r, r1);
  }

  lemma {:induction false} HeldAfter(s: Sched, c: nat, n: nat)
    requires HaltedNow(s) && s.current == Some(c) && (Continues(s.tasks[c]) ==> n <= |Earlier(s.tasks[c])|)
    ensures HeldWith(s, c, n, TickN(s, n))
    decreases n
  {
    if n > 0 {
      HeldAfter(s, c, n - 1);
      HeldStep(s, c, n - 1, TickN(s, n - 1), TickN(s, n));
    }
  }

  lemma Resumed(s: Sched, c: nat, k: nat, r: Sched, r1: Sched)
    requires HaltedNow(s) && s.current == Some(c) && HeldWith(s, c, k, r) && r1 == Tick(r)
    requires Continues(s.tasks[c]) && k == |Earlier(s.tasks[c])|
    ensures c in r1.tasks && Active(r1.tasks[c]) && !Holds(s, r1)
  {
    TickHolds(r, c);
  }

  /** The tick after the signals due before a SIGCONT runs the task again. */
  lemma TicksContinue(s: Sched, c: nat, n: nat)
    requires HaltedNow(s) && s.current == Some(c) && Continues(s.tasks[c]) && n == |Earlier(s.tasks[c])| + 1
    ensures c in TickN(s, n).tasks && Active(TickN(s, n).tasks[c]) && !Holds(s, TickN(s, n))
  {
    HeldAfter(s, c, n - 1);
    Resumed(s, c, n - 1, TickN(s, n - 1), TickN(s, n));
  }

  /** With a halted current task, the number of ticks that leave it as it is: all of them, unless it is marked stopped
      and a SIGCONT is to be delivered; then as many as there are signals to be delivered before, and the next one runs
      it. */
  lemma TicksHoldExactly(s: Sched, c: nat, n: nat)
    requires HaltedNow(s) && s.current == Some(c)
    ensures HoldsFor(s, n) <==> !(Continues(s.tasks[c]) && n > |Earlier(s.tasks[c])|)
  {
    if Continues(s.tasks[c]) && n > |Earlier(s.tasks[c])| {
      TicksContinue(s, c, |Earlier(s.tasks[c])| + 1);
    } else {
      forall m: nat | m <= n
        ensures Holds(s, TickN(s, m))
      {
        HeldAfter(s, c, m);
      }
    }
  }

  /** After some number of ticks the task runs or waits in the queue again. */
  ghost predicate BackToWork(s: Sched, c: nat)
    requires Known(s)
  {
    exists n: nat :: c in TickN(s, n).tasks && Active(TickN(s, n).tasks[c])
  }

  /** Timer ticks alone bring a halted current task back to work if and only if it is marked stopped and a SIGCONT is to
      be delivered to it.  Otherwise, however many follow, it stays current and nothing is dequeued. */
  lemma TicksNeverSwitch(s: Sched, c: nat)
    requires HaltedNow(s) && s.current == Some(c)
    ensures BackToWork(s, c) <==> Continues(s.tasks[c])
    ensures !Continues(s.tasks[c]) ==> forall n: nat :: Holds(s, TickN(s, n))
  {
    if Continues(s.tasks[c]) {
      TicksContinue(s, c, |Earlier(s.tasks[c])| + 1);
    } else {
      forall n: nat
        ensures Holds(s, TickN(s, n))
      {
        HeldAfter(s, c, n);
      }
    }
  }

  // ---------------------------------------------------------------- killed tasks at work

  /** `preempt_schedule` on a state whose current task has terminated brings that task back to life. */
  lemma PreemptRevives(s: Sched, rsp: nat)
    requires Known(s) && s.preemptEnabled && s.current.Some? && s.tasks[s.current.value].state == Terminated
    ensures var s1 := Preempt(s, rsp).0; Active(s1.tasks[s.current.value])
  {
  }

  /** A current task killed by a signal in `tick` is put back to work by the next `preempt_schedule`. */
  lemma KillUndone(s: Sched, s1: Sched, c: nat, rsp: nat)
    requires Known(s) && s.preemptEnabled && s.current == Some(c) && NextSignal(s.tasks[c]) == Some(Signals.SIGKILL)
    requires s1 == Tick(s)
    ensures Dead(s1, c) && s1.current == Some(c) && !Dead(Preempt(s1, rsp).0, c)
  {
    PreemptRevives(s1, rsp);
  }
}
