/**
 What src/sched/scheduler.rs keeps about each task over every run: the stack pointer it saves and gives back, the ticks
 it charges, the exit code, and what never changes; and exactly when a task resumes where it left.

 Nothing is asked of the runs: not that their operations are safe, nor that their states are well formed.
 */
module SchedContext {
  import opened Kernel
  import opened Sched
  import opened SchedInvariant
  import opened SchedRuns
  import SchedHalt
  import Signals

  datatype Record = Record(
    rsp: nat,
    cpuTicks: nat,
    slice: nat,
    exitCode: int,
    foreground: Foreground,
    pending: Signals.Mask,
    priority: Priority,
    quantum: nat)

  function RecordOf(task: Task): Record {
    Record(task.savedRsp, task.cpuTicks, task.timeSlice, task.exitCode, task.foreground, task.pending, task.priority,
           task.defaultTimeSlice)
  }

  /** The operation is a preemption of task `t`. */
  predicate Saves(s: Sched, op: Op, t: nat) { op.PreemptAt? && s.preemptEnabled && s.current == Some(t) }

  predicate Makes(s: Sched, op: Op, t: nat) { op.CreateTask? && s.nextId == t }

  /** What the history says about `t` after an operation, when it said `before`. */
  function RecordAfter(s: Sched, op: Op, t: nat, before: Record): Record
    requires Known(s)
  {
    if Makes(s, op, t) then
      Record(op.rsp, 0, DEFAULT_TIME_SLICE, 0, op.foreground, 0, op.priority, DEFAULT_TIME_SLICE)
    else if Saves(s, op, t) then before.(rsp := op.rsp, slice := before.quantum)
    else if op.TimerTick? then OnTick(s, t, before)
    else if op.ScheduleNow? || op.YieldNow? then Refreshed(s, t, before)
    else if op.Exit? && s.current == Some(t) then before.(exitCode := op.code)
    else if t in s.all then Addressed(op, t, before)
    else before
  }

  /** What an operation that names a listed task does to it. */
  function Addressed(op: Op, t: nat, before: Record): Record {
    match op
    case Kill(id, code) => if id == t && t > 2 then before.(exitCode := code) else before
    case Signal(id, signal) => if id == t then before.(pending := Signals.Send(before.pending, signal)) else before
    case Bg(id) =>
      if id == t && before.foreground == Stopped
      then before.(foreground := Background, pending := Signals.Send(before.pending, Signals.SIGCONT))
      else before
    case Fg(id) => if id == t then before.(foreground := Foreground) else before
    case _ => before
  }

  /** A running current task that is switched out starts its next turn with a full slice. */
  function Refreshed(s: Sched, t: nat, before: Record): Record
    requires Known(s)
  {
    if s.current == Some(t) && s.tasks[t].state == Running then before.(slice := before.quantum) else before
  }

  /** What the signal that a tick takes does to the record. */
  function Signalled(task: Task, before: Record): Record {
    var signal := NextSignal(task);
    var taken :=
      if before.pending == 0 then before else before.(pending := Signals.Pop(before.pending, task.blocked).1);
    if signal == Some(Signals.SIGKILL) then taken.(exitCode := -9)
    else if signal == Some(Signals.SIGTSTP) then taken.(foreground := Stopped)
    else if signal == Some(Signals.SIGCONT) && before.foreground == Stopped then taken.(foreground := Background)
    else taken
  }

  /** A tick takes a signal; it is charged unless it finds the task halted or halts it; a slice that ends, or a switch
      that was asked for, makes the next slice a full one. */
  function AfterTick(task: Task, asked: bool, before: Record): Record {
    if StopsAt(task) then Signalled(task, before)
    else
      ChargedRecord(Signalled(task, before)).(
        slice := if asked || before.slice <= 1 then before.quantum else before.slice - 1)
  }

  function OnTick(s: Sched, t: nat, before: Record): Record
    requires Known(s)
  {
    if s.preemptEnabled && s.current == Some(t) then AfterTick(s.tasks[t], s.needReschedule, before) else before
  }

  function ChargedRecord(before: Record): Record {
    before.(cpuTicks := before.cpuTicks + 1, slice := if before.slice > 0 then before.slice - 1 else 0)
  }

  // ---------------------------------------------------------------- one operation

  predicate Holds(s: Sched, t: nat, record: Record) { t in s.tasks ==> RecordOf(s.tasks[t]) == record }

  lemma ScheduleRecord(s: Sched, t: nat, before: Record)
    requires Known(s) && Holds(s, t, before)
    ensures Holds(Schedule(s), t, Refreshed(s, t, before))
  {
    var s1 := Requeue(s.(needReschedule := false));
    assert Holds(s1, t, Refreshed(s, t, before));
  }

  lemma SignalRecord(task: Task, before: Record)
    requires RecordOf(task) == before
    ensures StopsAt(task) ==>
      RecordOf(AfterSignal(task)) == AfterTick(task, false, before) == AfterTick(task, true, before)
    ensures !StopsAt(task) ==> RecordOf(Charged(task)) == ChargedRecord(Signalled(task, before))
    ensures !StopsAt(task) ==> Charged(task).state == Running
  {
  }

  lemma TickRunningRecord(s: Sched, c: nat, t: nat, before: Record)
    requires Known(s) && s.current == Some(c) && Holds(s, t, before) && !StopsAt(s.tasks[c])
    ensures Holds(TickRunning(s, c), t, if t == c then AfterTick(s.tasks[c], s.needReschedule, before) else before)
  {
    var s1 := Put(s, c, Charged(s.tasks[c])).(needReschedule := true);
    if t == c { SignalRecord(s.tasks[c], before); }
    ScheduleRecord(s1, t, if t == c then ChargedRecord(Signalled(s.tasks[c], before)) else before);
  }

  lemma TickCurrentRecord(s: Sched, c: nat, t: nat, before: Record)
    requires Known(s) && s.current == Some(c) && Holds(s, t, before)
    ensures Holds(TickCurrent(s, c), t, if t == c then AfterTick(s.tasks[c], s.needReschedule, before) else before)
  {
    if !StopsAt(s.tasks[c]) {
      TickRunningRecord(s, c, t, before);
    } else if t == c {
      SignalRecord(s.tasks[c], before);
    }
  }

  lemma TimerRecord(s: Sched, t: nat, before: Record)
    requires Known(s) && Holds(s, t, before)
    ensures Holds(Timer(s), t, OnTick(s, t, before))
  {
    if s.preemptEnabled {
      match s.current {
        case None => ScheduleRecord(s, t, before);
        case Some(c) => TickCurrentRecord(s, c, t, before);
      }
    }
  }

  lemma TickRecord(s: Sched, s1: Sched, t: nat, before: Record)
    requires Known(s) && s1 == s.(ticks := s.ticks + 1) && Holds(s, t, before)
    ensures Holds(Tick(s), t, OnTick(s, t, before))
  {
    TimerRecord(s1, t, before);
    TickIsTimer(s, s1);
  }

  lemma HaltedRecord(s: Sched, c: nat, task: Task, t: nat, before: Record)
    requires Known(s) && s.current == Some(c) && task.state != Running
    requires Holds(Put(s, c, task), t, before)
    ensures Holds(Schedule(Put(s, c, task).(needReschedule := true)), t, before)
  {
    ScheduleRecord(Put(s, c, task).(needReschedule := true), t, before);
  }

  lemma ExitRecord(s: Sched, code: int, t: nat, before: Record)
    requires Known(s) && Holds(s, t, before)
    ensures Holds(TerminateCurrent(s, code), t, RecordAfter(s, Exit(code), t, before))
  {
    if s.current.None? {
      ScheduleRecord(s.(needReschedule := true), t, before);
    } else {
      var c := s.current.value;
      HaltedRecord(
        s, c, s.tasks[c].(state := Terminated, exitCode := code), t, RecordAfter(s, Exit(code), t, before));
    }
  }

  lemma BlockRecord(s: Sched, t: nat, before: Record)
    requires Known(s) && Holds(s, t, before)
    ensures Holds(Schedule(BlockCurrent(s)), t, before)
  {
    if s.current.None? {
      ScheduleRecord(s, t, before);
    } else {
      var c := s.current.value;
      HaltedRecord(s, c, s.tasks[c].(state := Blocked), t, before);
    }
  }

  lemma PreemptRecord(s: Sched, rsp: nat, t: nat, before: Record)
    requires Known(s) && Holds(s, t, before)
    ensures Holds(Preempt(s, rsp).0, t, RecordAfter(s, PreemptAt(rsp), t, before))
  {
    var s1 := SaveCurrent(s, rsp);
    if s.preemptEnabled {
      assert Holds(s1, t, RecordAfter(s, PreemptAt(rsp), t, before));
    }
  }

  lemma DirectRecord(s: Sched, op: Op, t: nat, before: Record)
    requires Known(s) && Direct(op) && Holds(s, t, before)
    ensures Holds(Step(s, op), t, RecordAfter(s, op, t, before))
  {
  }

  lemma StepRecord(s: Sched, op: Op, t: nat, before: Record)
    requires Known(s) && Holds(s, t, before)
    ensures Holds(Step(s, op), t, RecordAfter(s, op, t, before))
  {
    match op {
      case ScheduleNow => ScheduleRecord(s, t, before);
      case YieldNow => ScheduleRecord(s.(needReschedule := true), t, before);
      case PreemptAt(rsp) => PreemptRecord(s, rsp, t, before);
      case TimerTick => TickRecord(s, s.(ticks := s.ticks + 1), t, before);
      case BlockAndSchedule => BlockRecord(s, t, before);
      case Exit(code) => ExitRecord(s, code, t, before);
      case _ => DirectRecord(s, op, t, before);
    }
  }

  // ---------------------------------------------------------------- one operation, field by field

  /** The code with which the operation ends task `t`: it exits, is killed, or takes a SIGKILL in a tick. */
  function Ends(s: Sched, op: Op, t: nat): Option<int>
    requires Known(s)
  {
    if op.Exit? && s.current == Some(t) then Some(op.code)
    else if op.Kill? && op.id == t && t > 2 && t in s.all then Some(op.code)
    else if op.TimerTick? && s.preemptEnabled && s.current == Some(t) && NextSignal(s.tasks[t]) == Some(Signals.SIGKILL)
    then Some(-9)
    else None
  }

  /** The operation is a tick that finds `t` running: it is current and running and takes no signal that halts it, or
      takes the SIGCONT that continues it. */
  predicate Charges(s: Sched, op: Op, t: nat)
    requires Known(s)
  {
    && op.TimerTick? && s.preemptEnabled && s.current == Some(t)
    && var task := s.tasks[t];
       && !Halts(NextSignal(task))
       && (task.state == Running || (NextSignal(task) == Some(Signals.SIGCONT) && task.foreground == Stopped))
  }

  lemma ChargesMeaning(task: Task)
    ensures !StopsAt(task) <==>
      && !Halts(NextSignal(task))
      && (task.state == Running || (NextSignal(task) == Some(Signals.SIGCONT) && task.foreground == Stopped))
  {
  }

  predicate Fields(s: Sched, op: Op, t: nat, before: Record, after: Record)
    requires Known(s)
  {
    && after.priority == before.priority && after.quantum == before.quantum
    && after.cpuTicks == before.cpuTicks + (if Charges(s, op, t) then 1 else 0)
    && after.exitCode == (match Ends(s, op, t) case Some(code) => code case None => before.exitCode)
    && after.rsp == if Saves(s, op, t) then op.rsp else before.rsp
  }

  lemma TickFields(s: Sched, t: nat, before: Record)
    requires Known(s) && t in s.tasks && before == RecordOf(s.tasks[t])
    ensures Fields(s, TimerTick, t, before, OnTick(s, t, before))
  {
    ChargesMeaning(s.tasks[t]);
  }

  lemma AddressedFields(s: Sched, op: Op, t: nat, before: Record)
    requires Known(s) && t in s.all && !op.TimerTick? && !op.Exit? && !op.PreemptAt?
    ensures Fields(s, op, t, before, Addressed(op, t, before))
  {
  }

  lemma RecordFields(s: Sched, op: Op, t: nat, before: Record)
    requires Known(s) && t in s.tasks && before == RecordOf(s.tasks[t])
    ensures Fields(s, op, t, before, RecordAfter(s, op, t, before))
  {
    if op.TimerTick? {
      TickFields(s, t, before);
    } else if t in s.all && !op.Exit? && !op.PreemptAt? {
      AddressedFields(s, op, t, before);
    }
  }

  lemma ScheduleKeepsTasks(s: Sched, t: nat)
    requires Known(s) && t in s.tasks
    ensures t in Schedule(s).tasks
  {
  }

  lemma TickKeepsTasks(s: Sched, s1: Sched, t: nat)
    requires Known(s) && t in s.tasks && s1 == s.(ticks := s.ticks + 1)
    ensures t in Tick(s).tasks
  {
    TickIsTimer(s, s1);
    match s.current {
      case None => ScheduleKeepsTasks(s1, t);
      case Some(c) => ScheduleKeepsTasks(Put(s1, c, Charged(s1.tasks[c])).(needReschedule := true), t);
    }
  }

  lemma ExitKeepsTasks(s: Sched, code: int, t: nat)
    requires Known(s) && t in s.tasks
    ensures t in TerminateCurrent(s, code).tasks
  {
    if s.current.None? {
      ScheduleKeepsTasks(s.(needReschedule := true), t);
    } else {
      var c := s.current.value;
      ScheduleKeepsTasks(Put(s, c, s.tasks[c].(state := Terminated, exitCode := code)).(needReschedule := true), t);
    }
  }

  lemma DirectKeepsTasks(s: Sched, op: Op, t: nat)
    requires Known(s) && t in s.tasks && (Direct(op) || op.PreemptAt?)
    ensures t in Step(s, op).tasks
  {
  }

  /** No operation forgets a task. */
  lemma StepKeepsTasks(s: Sched, op: Op, t: nat)
    requires Known(s) && t in s.tasks
    ensures t in Step(s, op).tasks
  {
    match op {
      case ScheduleNow => ScheduleKeepsTasks(s, t);
      case YieldNow => ScheduleKeepsTasks(s.(needReschedule := true), t);
      case TimerTick => TickKeepsTasks(s, s.(ticks := s.ticks + 1), t);
      case BlockAndSchedule => ScheduleKeepsTasks(BlockCurrent(s), t);
      case Exit(code) => ExitKeepsTasks(s, code, t);
      case _ => DirectKeepsTasks(s, op, t);
    }
  }

  /** What an operation does to a task that exists: priority and quantum stay; a tick is charged when it finds the task
      running; the exit code changes when it ends; the saved pointer changes when it is preempted. */
  predicate Lives(s: Sched, op: Op, s1: Sched, t: nat)
    requires Known(s) && t in s.tasks
  {
    && t in s1.tasks
    && s1.tasks[t].priority == s.tasks[t].priority && s1.tasks[t].defaultTimeSlice == s.tasks[t].defaultTimeSlice
    && s1.tasks[t].cpuTicks == s.tasks[t].cpuTicks + (if Charges(s, op, t) then 1 else 0)
    && s1.tasks[t].exitCode == (match Ends(s, op, t) case Some(code) => code case None => s.tasks[t].exitCode)
    && s1.tasks[t].savedRsp == if Saves(s, op, t) then op.rsp else s.tasks[t].savedRsp
  }

  lemma StepLives(s: Sched, op: Op, t: nat)
    requires Known(s) && t in s.tasks
    ensures Lives(s, op, Step(s, op), t)
  {
    StepKeepsTasks(s, op, t);
    StepRecord(s, op, t, RecordOf(s.tasks[t]));
    RecordFields(s, op, t, RecordOf(s.tasks[t]));
  }

  // ---------------------------------------------------------------- runs

  /** The number of ticks from operation `j` to operation `k` that find `t` running. */
  ghost function TicksOf(trace: seq<Sched>, ops: seq<Op>, t: nat, j: nat, k: nat): nat
    requires IsRun(trace, ops) && j <= k < |trace|
    decreases k
  {
    AllKnown(trace, ops);
    if k == j then 0 else TicksOf(trace, ops, t, j, k - 1) + if Charges(trace[k - 1], ops[k - 1], t) then 1 else 0
  }

  /** The code of the last operation from `j` to `k` that ends `t`, if there is one. */
  ghost function LastEnd(trace: seq<Sched>, ops: seq<Op>, t: nat, j: nat, k: nat): Option<int>
    requires IsRun(trace, ops) && j <= k < |trace|
    decreases k
  {
    AllKnown(trace, ops);
    if k == j then None
    else
      var end := Ends(trace[k - 1], ops[k - 1], t);
      if end.Some? then end else LastEnd(trace, ops, t, j, k - 1)
  }

  /** The pointer of the last preemption of `t` from `j` to `k`, if there is one. */
  ghost function LastSave(trace: seq<Sched>, ops: seq<Op>, t: nat, j: nat, k: nat): Option<nat>
    requires IsRun(trace, ops) && j <= k < |trace|
    decreases k
  {
    if k == j then None
    else if Saves(trace[k - 1], ops[k - 1], t) then Some(ops[k - 1].rsp)
    else LastSave(trace, ops, t, j, k - 1)
  }

  function Or<T>(value: Option<T>, otherwise: T): T { if value.Some? then value.value else otherwise }

  /** What is kept about a task `t` that existed before operation `j`, just before operation `k`. */
  ghost predicate Kept(trace: seq<Sched>, ops: seq<Op>, t: nat, j: nat, k: nat)
    requires IsRun(trace, ops) && j <= k < |trace| && t in trace[j].tasks
  {
    && t in trace[k].tasks
    && var before, after := trace[j].tasks[t], trace[k].tasks[t];
       && after.priority == before.priority && after.defaultTimeSlice == before.defaultTimeSlice
       && after.cpuTicks == before.cpuTicks + TicksOf(trace, ops, t, j, k)
       && after.exitCode == Or(LastEnd(trace, ops, t, j, k), before.exitCode)
       && after.savedRsp == Or(LastSave(trace, ops, t, j, k), before.savedRsp)
  }

  lemma LivesAt(trace: seq<Sched>, ops: seq<Op>, t: nat, i: nat, k: nat)
    requires IsRun(trace, ops) && i < k < |trace| && k == i + 1 && t in trace[i].tasks
    ensures Known(trace[i]) && Lives(trace[i], ops[i], trace[k], t)
  {
    StepAt(trace, ops, |ops|, i, k);
    StepLives(trace[i], ops[i], t);
  }

  /** In every run, safe or not, a task's priority and quantum never change, the ticks charged to it are those that
      found it running, its exit code is that of the last operation that ended it, and its saved pointer that of its
      last preemption. */
  lemma {:induction false} RunKeeps(trace: seq<Sched>, ops: seq<Op>, t: nat, j: nat, k: nat)
    requires IsRun(trace, ops) && j <= k < |trace| && t in trace[j].tasks
    ensures Kept(trace, ops, t, j, k)
    decreases k
  {
    if j < k {
      RunKeeps(trace, ops, t, j, k - 1);
      LivesAt(trace, ops, t, k - 1, k);
    }
  }

  /** The whole life of a task, from the operation that made it. */
  lemma TaskLife(trace: seq<Sched>, ops: seq<Op>, t: nat, i: nat, j: nat, k: nat)
    requires IsRun(trace, ops) && i < j <= k < |trace| && j == i + 1 && Makes(trace[i], ops[i], t)
    ensures t in trace[k].tasks
    ensures var task := trace[k].tasks[t];
      && task.priority == ops[i].priority && task.defaultTimeSlice == DEFAULT_TIME_SLICE
      && task.cpuTicks == TicksOf(trace, ops, t, j, k)
      && task.exitCode == Or(LastEnd(trace, ops, t, j, k), 0)
      && task.savedRsp == Or(LastSave(trace, ops, t, j, k), ops[i].rsp)
  {
    StepAt(trace, ops, |ops|, i, j);
    RunKeeps(trace, ops, t, j, k);
  }

  // ---------------------------------------------------------------- resuming

  /** The pointer that `preempt_schedule` returns is the one saved for the task that is current afterwards. */
  lemma PreemptReturnsSaved(s: Sched, rsp: nat)
    requires Known(s) && s.preemptEnabled
    ensures var (s1, r) := Preempt(s, rsp);
      if s1.current.Some? then s1.tasks[s1.current.value].savedRsp == r else r == rsp
  {
    var s1 := SaveCurrent(s, rsp);
    match Pick(s1) {
      case None =>
      case Some(i) => assert s1.queue[i] in s1.tasks;
    }
  }

  /** `preempt_schedule` at operation `k` puts `t` on the processor. */
  predicate Resumes(trace: seq<Sched>, ops: seq<Op>, t: nat, k: nat)
    requires |trace| == |ops| + 1 && k < |ops|
  {
    ops[k].PreemptAt? && trace[k].preemptEnabled && trace[k].current != Some(t) && trace[k + 1].current == Some(t)
  }

  /** `t` is not on the processor before operations `j` to `k`. */
  predicate OffFrom(trace: seq<Sched>, t: nat, j: nat, k: nat)
    requires k < |trace|
  {
    forall i | j <= i <= k :: trace[i].current != Some(t)
  }

  lemma {:induction false} NotSavedOff(trace: seq<Sched>, ops: seq<Op>, t: nat, j: nat, k: nat)
    requires IsRun(trace, ops) && j <= k < |trace| && OffFrom(trace, t, j, k)
    ensures LastSave(trace, ops, t, j, k) == None
    decreases k
  {
    if j < k { NotSavedOff(trace, ops, t, j, k - 1); }
  }

  /** The task resumes on the pointer that was saved for it before the switch. */
  lemma ResumesOnSaved(trace: seq<Sched>, ops: seq<Op>, t: nat, k: nat, n: nat)
    requires IsRun(trace, ops) && k < |ops| && n == k + 1 && Resumes(trace, ops, t, k) && t in trace[k].tasks
    ensures Known(trace[k]) && Preempt(trace[k], ops[k].rsp).1 == trace[k].tasks[t].savedRsp
  {
    LivesAt(trace, ops, t, k, n);
    StepAt(trace, ops, |ops|, k, n);
    PreemptReturnsSaved(trace[k], ops[k].rsp);
  }

  /** A task that has been off the processor since operation `j` resumes on the pointer that was saved for it then: one
      that was made there and never ran starts on the pointer it was made with. */
  lemma ResumesFrom(trace: seq<Sched>, ops: seq<Op>, t: nat, j: nat, k: nat)
    requires IsRun(trace, ops) && j <= k < |ops| && t in trace[j].tasks
    requires OffFrom(trace, t, j, k) && Resumes(trace, ops, t, k)
    ensures Known(trace[k]) && Preempt(trace[k], ops[k].rsp).1 == trace[j].tasks[t].savedRsp
  {
    RunKeeps(trace, ops, t, j, k);
    NotSavedOff(trace, ops, t, j, k);
    ResumesOnSaved(trace, ops, t, k, k + 1);
  }

  /** A task left the processor at operation `i`, its stack pointer then being `sp`, and `preempt_schedule` puts it on
      again at operation `k`.  It resumes where it left if and only if the operation was `preempt_schedule`, or the
      pointer happens to be the one it had been put on the processor with: `schedule` and all operations that end in it
      save nothing. */
  lemma ResumesWhereItLeftIff(trace: seq<Sched>, ops: seq<Op>, t: nat, i: nat, j: nat, k: nat, sp: nat)
    requires IsRun(trace, ops) && i < j <= k < |ops| && j == i + 1
    requires trace[i].current == Some(t) && OffFrom(trace, t, j, k) && Resumes(trace, ops, t, k)
    requires ops[i].PreemptAt? ==> sp == ops[i].rsp
    ensures Known(trace[i]) && Known(trace[k])
    ensures Preempt(trace[k], ops[k].rsp).1 == sp <==> ops[i].PreemptAt? || trace[i].tasks[t].savedRsp == sp
  {
    StepAt(trace, ops, |ops|, i, j);
    LivesAt(trace, ops, t, i, j);
    ResumesFrom(trace, ops, t, j, k);
  }

  // ---------------------------------------------------------------- counters

  /** The ticks are those before, and a switch is counted exactly when another task is current. */
  predicate Counts(s: Sched, s1: Sched) {
    s1.ticks == s.ticks && s1.switches == s.switches + if s1.current != s.current then 1 else 0
  }

  lemma ScheduleCounts(s: Sched)
    requires Known(s)
    ensures Counts(s, Schedule(s))
  {
  }

  lemma TimerCounts(s: Sched)
    requires Known(s)
    ensures Counts(s, Timer(s))
  {
    match s.current {
      case None => ScheduleCounts(s);
      case Some(c) => ScheduleCounts(Put(s, c, Charged(s.tasks[c])).(needReschedule := true));
    }
  }

  lemma TickCounts(s: Sched, s1: Sched)
    requires Known(s) && s1 == s.(ticks := s.ticks + 1)
    ensures Counts(s1, Tick(s))
  {
    TickIsTimer(s, s1);
    TimerCounts(s1);
  }

  lemma ExitCounts(s: Sched, code: int)
    requires Known(s)
    ensures Counts(s, TerminateCurrent(s, code))
  {
    if s.current.None? {
      ScheduleCounts(s.(needReschedule := true));
    } else {
      var c := s.current.value;
      ScheduleCounts(Put(s, c, s.tasks[c].(state := Terminated, exitCode := code)).(needReschedule := true));
    }
  }

  /** Every tick is counted and nothing else is, and a switch is counted exactly when another task becomes current. */
  lemma StepCounts(s: Sched, op: Op)
    requires Known(s) && !op.PreemptAt?
    ensures Counts(if op.TimerTick? then s.(ticks := s.ticks + 1) else s, Step(s, op))
  {
    match op {
      case ScheduleNow => ScheduleCounts(s);
      case YieldNow => ScheduleCounts(s.(needReschedule := true));
      case BlockAndSchedule => ScheduleCounts(BlockCurrent(s));
      case TimerTick => TickCounts(s, s.(ticks := s.ticks + 1));
      case Exit(code) => ExitCounts(s, code);
      case _ => DirectCounts(s, op);
    }
  }

  lemma DirectCounts(s: Sched, op: Op)
    requires Known(s) && Direct(op)
    ensures Counts(s, Step(s, op))
  {
  }

  /** Every waiting task has a lower priority than the current one. */
  predicate AllLower(s: Sched, c: nat)
    requires Known(s) && c in s.tasks
  {
    forall i | 0 <= i < |s.queue| :: PriorityAt(s, i) < Rank(s.tasks[c].priority)
  }

  lemma SavedPriorities(s: Sched, c: nat, rsp: nat, s1: Sched)
    requires Known(s) && s.current == Some(c) && s1 == SaveCurrent(s, rsp)
    ensures |s1.queue| == |s.queue| + 1 && s1.queue[|s.queue|] == c
    ensures PriorityAt(s1, |s.queue|) == Rank(s.tasks[c].priority)
    ensures forall i | 0 <= i < |s.queue| :: s1.queue[i] == s.queue[i] && PriorityAt(s1, i) == PriorityAt(s, i)
  {
  }

  /** The preempted task, at the back of the queue, is chosen again exactly when all others have a lower priority. */
  lemma BackChosenIff(s: Sched, c: nat, rsp: nat, s1: Sched, b: nat)
    requires Known(s) && s.current == Some(c) && c !in s.queue && s1 == SaveCurrent(s, rsp) && IsFirstBest(s1, b)
    ensures s1.queue[b] == c <==> AllLower(s, c)
  {
    SavedPriorities(s, c, rsp, s1);
    if b < |s.queue| { assert s.queue[b] in s.queue; }
  }

  /** Whether the current task was running or halted, saving it leaves a queue of ready tasks. */
  lemma SavedReady(s: Sched, c: nat, rsp: nat, s1: Sched)
    requires SchedHalt.Good(s) && s.current == Some(c) && s1 == SaveCurrent(s, rsp)
    ensures AllReady(s1) && c !in s.queue
  {
    var task := Rested(s.tasks[c]).(savedRsp := rsp, state := Ready);
    if Wf(s) { QueueTask(s, c, task, s1); } else { SchedHalt.HaltedQueue(s, c, task, s1); }
    IdleAllReady(s1);
  }

  /** `preempt_schedule` counts a switch that did not happen exactly when it is enabled and every waiting task has a
      lower priority than the current one, be that running or halted: it then switches to the task it took off. */
  lemma PreemptCountsIff(s: Sched, rsp: nat)
    requires SchedHalt.Good(s)
    ensures Counts(s, Preempt(s, rsp).0) <==>
      !(s.preemptEnabled && s.current.Some? && AllLower(s, s.current.value))
  {
    if s.preemptEnabled && s.current.Some? {
      var c := s.current.value;
      var s1 := SaveCurrent(s, rsp);
      SavedReady(s, c, rsp, s1);
      PickFindsBest(s1);
      BackChosenIff(s, c, rsp, s1, Pick(s1).value);
    }
  }
}
