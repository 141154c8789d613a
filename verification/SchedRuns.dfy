/** Whole runs of the scheduler of src/sched/scheduler.rs. */
module SchedRuns {
  import opened Kernel
  import opened Signals
  import opened Sched
  import opened SchedInvariant

  datatype Op =
    | CreateTask(priority: Priority, foreground: Foreground, rsp: nat)
    | ScheduleNow
    | YieldNow
    | PreemptAt(rsp: nat)
    | TimerTick
    | Block
    | BlockAndSchedule
    | UnblockId(id: nat)
    | Exit(code: int)
    | Kill(id: nat, code: int)
    | Signal(id: nat, signal: nat)
    | Bg(id: nat)
    | Fg(id: nat)
    | CleanUp
    | SetPreemption(enabled: bool)

  function Step(s: Sched, op: Op): (r: Sched)
    requires Known(s)
    ensures Known(r)
  {
    match op
    case CreateTask(priority, foreground, rsp) => Create(s, priority, foreground, rsp)
    case ScheduleNow => Schedule(s)
    case YieldNow => Yield(s)
    case PreemptAt(rsp) => Preempt(s, rsp).0
    case TimerTick => Tick(s)
    case Block => BlockCurrent(s)
    case BlockAndSchedule => Schedule(BlockCurrent(s))
    case UnblockId(id) => Unblock(s, id).0
    case Exit(code) => TerminateCurrent(s, code)
    case Kill(id, code) => TerminateTask(s, id, code).0
    case Signal(id, signal) => SendSignal(s, id, signal).0
    case Bg(id) => ToBackground(s, id).0
    case Fg(id) => ToForeground(s, id).0
    case CleanUp => Cleanup(s)
    case SetPreemption(enabled) => s.(preemptEnabled := enabled)
  }

  /** What a caller must check before an operation for the invariant to be kept. */
  predicate Safe(s: Sched, op: Op)
    requires Known(s)
  {
    match op
    case TimerTick => !TickWillHalt(s)
    case Block => s.current.None?
    case BlockAndSchedule => s.current.None? || s.queue != []
    case Exit(_) => s.current.None? || s.queue != []
    case Kill(id, _) => !(id > 2 && s.current == Some(id))
    case Bg(id) => !ResumesActive(s, id)
    case _ => true
  }

  /** From a well-formed state an operation ends in a well-formed state if and only if it is safe. */
  lemma StepKeepsWfIffSafe(s: Sched, op: Op)
    requires Wf(s)
    ensures Wf(Step(s, op)) <==> Safe(s, op)
  {
    match op {
      case CreateTask(priority, foreground, rsp) => CreateKeepsWf(s, priority, foreground, rsp);
      case ScheduleNow => ScheduleKeepsWf(s);
      case YieldNow =>
        SameTasksSameWf(s, s.(needReschedule := true));
        ScheduleKeepsWf(s.(needReschedule := true));
      case PreemptAt(rsp) => PreemptKeepsWf(s, rsp);
      case TimerTick => TickKeepsWf(s);
      case Block => BlockCurrentKeepsWf(s);
      case BlockAndSchedule => BlockThenScheduleKeepsWf(s);
      case UnblockId(id) => UnblockKeepsWf(s, id);
      case Exit(code) => TerminateCurrentKeepsWf(s, code);
      case Kill(id, code) => TerminateTaskKeepsWf(s, id, code);
      case Signal(id, signal) => SendSignalKeepsWf(s, id, signal);
      case Bg(id) => ToBackgroundKeepsWf(s, id);
      case Fg(id) => ToForegroundKeepsWf(s, id);
      case CleanUp => CleanupKeepsWf(s);
      case SetPreemption(enabled) => SameTasksSameWf(s, s.(preemptEnabled := enabled));
    }
  }

  // ---------------------------------------------------------------- terminated tasks

  predicate Dead(s: Sched, t: nat) { t in s.tasks && s.tasks[t].state == Terminated }

  /** The current task is to take a signal that changes the state of a terminated task. */
  predicate Wakes(task: Task) {
    NextSignal(task) == Some(SIGTSTP) || (NextSignal(task) == Some(SIGCONT) && task.foreground == Stopped)
  }

  /** The operation is `bg` on `t` while it is marked stopped; or `t` is current and the operation blocks it, preempts
      it, or is a tick that delivers it a SIGTSTP, or a SIGCONT while it is marked stopped. */
  predicate Revives(s: Sched, op: Op, t: nat)
    requires Known(s) && t in s.tasks
  {
    || (op == Bg(t) && t in s.all && s.tasks[t].foreground == Stopped)
    || (s.current == Some(t) && (op.Block? || op.BlockAndSchedule?))
    || (s.current == Some(t) && s.preemptEnabled && (op.PreemptAt? || (op.TimerTick? && Wakes(s.tasks[t]))))
  }

  /** `schedule` does not touch a task that is neither ready nor running. */
  lemma ScheduleLeavesHalted(s: Sched, t: nat)
    requires Known(s) && t in s.tasks && s.tasks[t].state != Ready && s.tasks[t].state != Running
    ensures Schedule(s).tasks[t] == s.tasks[t]
  {
    RequeueLeavesHalted(s.(needReschedule := false), t);
    PickedIsReady(Requeue(s.(needReschedule := false)), t);
  }

  lemma RequeueLeavesHalted(s: Sched, t: nat)
    requires Known(s) && t in s.tasks && s.tasks[t].state != Running
    ensures t in Requeue(s).tasks && Requeue(s).tasks[t] == s.tasks[t]
  {
  }

  lemma PickedIsReady(s: Sched, t: nat)
    requires Known(s) && t in s.tasks && s.tasks[t].state != Ready
    ensures Pick(s).Some? ==> s.queue[Pick(s).value] != t
  {
  }

  lemma SchedulePreservesDead(s: Sched, t: nat)
    requires Known(s) && Dead(s, t)
    ensures Dead(Schedule(s), t)
  {
    ScheduleLeavesHalted(s, t);
  }

  lemma PreemptPreservesDeadIff(s: Sched, rsp: nat, t: nat)
    requires Known(s) && Dead(s, t)
    ensures Dead(Preempt(s, rsp).0, t) <==> !(s.preemptEnabled && s.current == Some(t))
  {
    var s1 := SaveCurrent(s, rsp);
    assert Dead(s1, t) <==> s.current != Some(t);
  }

  lemma AfterSignalDead(task: Task)
    requires task.state == Terminated
    ensures AfterSignal(task).state == Terminated <==> !Wakes(task)
    ensures Wakes(task) ==> AfterSignal(task).state == Blocked || AfterSignal(task).state == Running
  {
  }

  lemma TickOtherPreservesDead(s: Sched, c: nat, t: nat, s1: Sched)
    requires Known(s) && c in s.tasks && Dead(s, t) && c != t
    requires s1 == Put(s, c, Charged(s.tasks[c]))
    ensures Dead(TickCurrent(s, c), t)
  {
    assert Dead(s1, t);
    SchedulePreservesDead(s1.(needReschedule := true), t);
  }

  predicate Active(task: Task) { task.state == Running || task.state == Ready }

  lemma DispatchKeepsActive(s: Sched, i: nat, t: nat)
    requires Known(s) && i < |s.queue| && t in s.tasks && Active(s.tasks[t])
    ensures t in Dispatch(s, i).tasks && Active(Dispatch(s, i).tasks[t])
  {
  }

  /** `schedule` leaves a running task running or ready. */
  lemma ScheduleKeepsActive(s: Sched, t: nat, s1: Sched)
    requires Known(s) && t in s.tasks && s.tasks[t].state == Running && s1 == Requeue(s.(needReschedule := false))
    ensures t in Schedule(s).tasks && Active(Schedule(s).tasks[t])
  {
    assert t in s1.tasks && Active(s1.tasks[t]);
    if Pick(s1).Some? { DispatchKeepsActive(s1, Pick(s1).value, t); }
  }

  lemma RunningStaysActive(s: Sched, c: nat)
    requires Known(s) && c in s.tasks && !StopsAt(s.tasks[c])
    ensures c in TickRunning(s, c).tasks && Active(TickRunning(s, c).tasks[c])
  {
    var s1 := Put(s, c, Charged(s.tasks[c])).(needReschedule := true);
    ScheduleKeepsActive(s1, c, Requeue(s1.(needReschedule := false)));
  }

  lemma TickSelfPreservesDeadIff(s: Sched, c: nat)
    requires Known(s) && Dead(s, c)
    ensures Dead(TickCurrent(s, c), c) <==> !Wakes(s.tasks[c])
  {
    AfterSignalDead(s.tasks[c]);
    if !StopsAt(s.tasks[c]) { RunningStaysActive(s, c); }
  }

  lemma TimerPreservesDeadIff(s: Sched, t: nat)
    requires Known(s) && Dead(s, t)
    ensures Dead(Timer(s), t) <==> !Revives(s, TimerTick, t)
  {
    if s.preemptEnabled {
      match s.current {
        case None => SchedulePreservesDead(s, t);
        case Some(c) =>
          if c == t {
            TickSelfPreservesDeadIff(s, c);
          } else {
            TickOtherPreservesDead(s, c, t, Put(s, c, Charged(s.tasks[c])));
          }
      }
    }
  }

  lemma TickPreservesDeadIff(s: Sched, s1: Sched, t: nat)
    requires Known(s) && Dead(s, t) && s1 == s.(ticks := s.ticks + 1)
    ensures Dead(Tick(s), t) <==> !Revives(s, TimerTick, t)
  {
    TimerPreservesDeadIff(s1, t);
    TickIsTimer(s, s1);
  }

  lemma ExitPreservesDead(s: Sched, code: int, t: nat)
    requires Known(s) && Dead(s, t)
    ensures Dead(TerminateCurrent(s, code), t)
  {
    if s.current.None? {
      SchedulePreservesDead(s.(needReschedule := true), t);
    } else {
      var c := s.current.value;
      SchedulePreservesDead(
        Put(s, c, s.tasks[c].(state := Terminated, exitCode := code)).(needReschedule := true), t);
    }
  }

  lemma BlockPreservesDeadIff(s: Sched, t: nat)
    requires Known(s) && Dead(s, t)
    ensures Dead(Schedule(BlockCurrent(s)), t) <==> s.current != Some(t)
  {
    if s.current == Some(t) {
      ScheduleLeavesHalted(BlockCurrent(s), t);
    } else {
      SchedulePreservesDead(BlockCurrent(s), t);
    }
  }

  predicate Direct(op: Op) {
    !op.ScheduleNow? && !op.YieldNow? && !op.PreemptAt? && !op.TimerTick? && !op.BlockAndSchedule? && !op.Exit?
  }

  lemma DirectPreservesDeadIff(s: Sched, op: Op, t: nat)
    requires Known(s) && Dead(s, t) && Direct(op)
    ensures Dead(Step(s, op), t) <==> !Revives(s, op, t)
  {
  }

  /** In every state, a terminated task stays terminated through an operation if and only if the operation is not one of
      those that revive it. */
  lemma DeadStaysDeadIff(s: Sched, op: Op, t: nat)
    requires Known(s) && Dead(s, t)
    ensures Dead(Step(s, op), t) <==> !Revives(s, op, t)
  {
    match op {
      case ScheduleNow => SchedulePreservesDead(s, t);
      case YieldNow => SchedulePreservesDead(s.(needReschedule := true), t);
      case PreemptAt(rsp) => PreemptPreservesDeadIff(s, rsp, t);
      case TimerTick => TickPreservesDeadIff(s, s.(ticks := s.ticks + 1), t);
      case BlockAndSchedule => BlockPreservesDeadIff(s, t);
      case Exit(code) => ExitPreservesDead(s, code, t);
      case _ => DirectPreservesDeadIff(s, op, t);
    }
  }

  /** In a well-formed state only `bg` revives a terminated task. */
  lemma OnlyBgRevives(s: Sched, op: Op, t: nat)
    requires Wf(s) && Dead(s, t)
    ensures Revives(s, op, t) <==> op == Bg(t) && t in s.all && s.tasks[t].foreground == Stopped
  {
  }

  // ---------------------------------------------------------------- runs

  /** The first `n` operations lead through the first `n + 1` states. */
  ghost predicate RunTo(trace: seq<Sched>, ops: seq<Op>, n: nat)
    requires |trace| == |ops| + 1 && n <= |ops|
    decreases n
  {
    n == 0 || (RunTo(trace, ops, n - 1) && Known(trace[n - 1]) && trace[n] == Step(trace[n - 1], ops[n - 1]))
  }

  ghost predicate IsRun(trace: seq<Sched>, ops: seq<Op>) { |trace| == |ops| + 1 && RunTo(trace, ops, |ops|) }

  lemma {:induction false} StepAt(trace: seq<Sched>, ops: seq<Op>, n: nat, j: nat, k: nat)
    requires |trace| == |ops| + 1 && j < k <= n <= |ops| && k == j + 1 && RunTo(trace, ops, n)
    ensures Known(trace[j]) && trace[k] == Step(trace[j], ops[j])
    decreases n
  {
    if k < n { StepAt(trace, ops, n - 1, j, k); }
  }

  lemma AllKnown(trace: seq<Sched>, ops: seq<Op>)
    requires IsRun(trace, ops)
    ensures forall k | 0 <= k < |ops| :: Known(trace[k])
  {
    forall k | 0 <= k < |ops| ensures Known(trace[k]) { StepAt(trace, ops, |ops|, k, k + 1); }
  }

  /** Every operation of the run is safe where it is applied, and none revives a terminated task. */
  ghost predicate SafeRun(trace: seq<Sched>, ops: seq<Op>)
    requires IsRun(trace, ops)
  {
    AllKnown(trace, ops);
    forall k | 0 <= k < |ops| ::
      Safe(trace[k], ops[k]) && (ops[k].Bg? && Dead(trace[k], ops[k].id) ==> !Revives(trace[k], ops[k], ops[k].id))
  }

  /** Over every safe run the invariant holds in every state. */
  lemma {:induction false} RunKeepsWf(trace: seq<Sched>, ops: seq<Op>, k: nat)
    requires IsRun(trace, ops) && SafeRun(trace, ops) && Wf(trace[0]) && k < |trace|
    ensures Wf(trace[k])
  {
    if k > 0 {
      var j := k - 1;
      RunKeepsWf(trace, ops, j);
      StepAt(trace, ops, |ops|, j, k);
      StepKeepsWfIffSafe(trace[j], ops[j]);
      assert Safe(trace[j], ops[j]);
    }
  }

  lemma EmptyWf()
    ensures Wf(Empty())
  {
  }

  /** Over every safe run, once a task is terminated it stays so, and is never queued or current again. */
  lemma {:induction false} DeadForever(trace: seq<Sched>, ops: seq<Op>, j: nat, k: nat, t: nat)
    requires IsRun(trace, ops) && SafeRun(trace, ops) && Wf(trace[0]) && j <= k < |trace| && Dead(trace[j], t)
    ensures Dead(trace[k], t) && t !in trace[k].queue && trace[k].current != Some(t)
    decreases k
  {
    RunKeepsWf(trace, ops, k);
    if j < k {
      var i := k - 1;
      DeadForever(trace, ops, j, i, t);
      RunKeepsWf(trace, ops, i);
      StepAt(trace, ops, |ops|, i, k);
      DeadStaysDeadIff(trace[i], ops[i], t);
    }
  }
}
