/**
 The scheduler of src/sched/scheduler.rs and the task fields it uses (src/sched/task.rs) on values.

 A task is named by its id: NEXT_TASK_ID only grows, so an `Arc<Mutex<Task>>` and its id stand for the same task.
 `tasks` holds every task ever made, `all` is `all_tasks`, `queue` is `ready_queue`.
 */
module Sched {
  import opened Kernel
  import opened Signals

  datatype TaskState = Ready | Running | Blocked | Terminated | Zombie

  datatype Foreground = Foreground | Background | Stopped

  datatype Priority = Low | Normal | High | RealTime

  function Rank(p: Priority): nat {
    match p case Low => 0 case Normal => 1 case High => 2 case RealTime => 3
  }

  datatype Task = Task(
    state: TaskState,
    priority: Priority,
    foreground: Foreground,
    savedRsp: nat,
    timeSlice: nat,
    defaultTimeSlice: nat,
    cpuTicks: nat,
    exitCode: int,
    pending: Mask,
    blocked: Mask)

  datatype Sched = Sched(
    tasks: map<nat, Task>,
    queue: seq<nat>,
    all: seq<nat>,
    current: Option<nat>,
    nextId: nat,
    ticks: nat,
    needReschedule: bool,
    preemptEnabled: bool,
    switches: nat)

  const DEFAULT_TIME_SLICE: nat := 10

  /** `Scheduler::new`, with NEXT_TASK_ID at 1 */
  function Empty(): Sched { Sched(map[], [], [], None, 1, 0, false, false, 0) }

  /** Every id that is used names a task, and ids grow. */
  predicate Known(s: Sched) {
    && (forall t | t in s.queue :: t in s.tasks)
    && (forall t | t in s.all :: t in s.tasks)
    && (s.current.Some? ==> s.current.value in s.tasks)
    && (forall t | t in s.tasks :: t < s.nextId)
  }

  // ---------------------------------------------------------------- pieces

  function Put(s: Sched, t: nat, task: Task): Sched { s.(tasks := s.tasks[t := task]) }

  function WithState(s: Sched, t: nat, state: TaskState): Sched
    requires t in s.tasks
  {
    Put(s, t, s.tasks[t].(state := state))
  }

  /** `reset_time_slice` */
  function Rested(task: Task): Task { task.(timeSlice := task.defaultTimeSlice) }

  /** The queue without its element `i`. */
  function RemoveAt(q: seq<nat>, i: nat): seq<nat>
    requires i < |q|
  {
    q[..i] + q[i + 1..]
  }

  /** `retain(|a| a.id != id)` */
  function Without(q: seq<nat>, id: nat): seq<nat> {
    if q == [] then [] else (if q[0] == id then [] else [q[0]]) + Without(q[1..], id)
  }

  // ---------------------------------------------------------------- creating tasks

  function NewTask(priority: Priority, foreground: Foreground, rsp: nat): Task {
    Task(Ready, priority, foreground, rsp, DEFAULT_TIME_SLICE, DEFAULT_TIME_SLICE, 0, 0, 0, 0)
  }

  /** The `create_..._task` functions */
  function Create(s: Sched, priority: Priority, foreground: Foreground, rsp: nat): (r: Sched)
    requires Known(s)
    ensures Known(r)
  {
    var t := s.nextId;
    s.(tasks := s.tasks[t := NewTask(priority, foreground, rsp)],
       queue := s.queue + [t], all := s.all + [t], nextId := t + 1)
  }

  // ---------------------------------------------------------------- choosing a task

  /** The loop of `pick_next_task` from element `i` on. */
  function Scan(s: Sched, i: nat, best: nat, priority: Priority): (r: nat)
    requires Known(s) && i <= |s.queue| && best < |s.queue|
    ensures r < |s.queue|
    decreases |s.queue| - i
  {
    if i == |s.queue| then best
    else
      var task := s.tasks[s.queue[i]];
      if task.state == Ready && Rank(task.priority) > Rank(priority) then Scan(s, i + 1, i, task.priority)
      else Scan(s, i + 1, best, priority)
  }

  /** `pick_next_task`: the position of the task chosen */
  function Pick(s: Sched): (r: Option<nat>)
    requires Known(s)
    ensures r.Some? ==> r.value < |s.queue|
  {
    if s.queue == [] then None
    else
      var best := Scan(s, 0, 0, Low);
      if s.tasks[s.queue[best]].state != Ready then None else Some(best)
  }

  /** The task at position `i` leaves the queue and runs. */
  function Dispatch(s: Sched, i: nat): (r: Sched)
    requires Known(s) && i < |s.queue|
    ensures Known(r)
  {
    var t := s.queue[i];
    WithState(s, t, Running).(queue := RemoveAt(s.queue, i), current := Some(t))
  }

  /** A running current task goes to the back of the queue with a full slice. */
  function Requeue(s: Sched): (r: Sched)
    requires Known(s)
    ensures Known(r)
  {
    match s.current
    case None => s
    case Some(c) =>
      if s.tasks[c].state == Running
      then Put(s, c, Rested(s.tasks[c]).(state := Ready)).(queue := s.queue + [c])
      else s
  }

  /** `schedule` */
  function Schedule(s: Sched): (r: Sched)
    requires Known(s)
    ensures Known(r)
  {
    var s1 := Requeue(s.(needReschedule := false));
    match Pick(s1)
    case None => s1
    case Some(i) =>
      var s2 := Dispatch(s1, i);
      if s2.current == s.current then s2 else s2.(switches := s2.switches + 1)
  }

  /** `yield_current` */
  function Yield(s: Sched): (r: Sched)
    requires Known(s)
    ensures Known(r)
  {
    Schedule(s.(needReschedule := true))
  }

  /** The first half of `preempt_schedule`: the current task, whatever its state, is saved, made ready and queued. */
  function SaveCurrent(s: Sched, rsp: nat): (r: Sched)
    requires Known(s)
    ensures Known(r)
  {
    match s.current
    case None => s
    case Some(c) => Put(s, c, Rested(s.tasks[c]).(savedRsp := rsp, state := Ready)).(queue := s.queue + [c])
  }

  /** `preempt_schedule`: the new state and the stack pointer returned */
  function Preempt(s: Sched, rsp: nat): (r: (Sched, nat))
    requires Known(s)
    ensures Known(r.0)
  {
    if !s.preemptEnabled then (s, rsp)
    else
      var s1 := SaveCurrent(s, rsp);
      match Pick(s1)
      case Some(i) =>
        var s2 := Dispatch(s1, i);
        (s2.(switches := s2.switches + 1), s1.tasks[s1.queue[i]].savedRsp)
      case None => (if s1.current.Some? then WithState(s1, s1.current.value, Running) else s1, rsp)
  }

  // ---------------------------------------------------------------- the timer

  /** `tick` */
  function Tick(s: Sched): (r: Sched)
    requires Known(s)
    ensures Known(r)
  {
    Timer(s.(ticks := s.ticks + 1))
  }

  /** `tick` after the tick is counted */
  function Timer(s: Sched): (r: Sched)
    requires Known(s)
    ensures Known(r)
  {
    if !s.preemptEnabled then s
    else match s.current
      case None => if s.needReschedule then Schedule(s) else s
      case Some(c) => TickCurrent(s, c)
  }

  /** What the popped signal does to the current task. */
  function Deliver(task: Task, signal: Option<nat>): Task {
    if signal == Some(SIGKILL) then task.(state := Terminated, exitCode := -9)
    else if signal == Some(SIGTSTP) then task.(foreground := Stopped, state := Blocked)
    else if signal == Some(SIGCONT) && task.foreground == Stopped then task.(foreground := Background, state := Running)
    else task
  }

  predicate Halts(signal: Option<nat>) { signal == Some(SIGKILL) || signal == Some(SIGTSTP) }

  /** The signal that the next `tick` takes from a task. */
  function NextSignal(task: Task): Option<nat> {
    if task.pending == 0 then None else Pop(task.pending, task.blocked).0
  }

  function AfterSignal(task: Task): Task {
    if task.pending == 0 then task
    else
      var (signal, left) := Pop(task.pending, task.blocked);
      Deliver(task.(pending := left), signal)
  }

  /** The current task is not running after the signal that the tick takes from it. */
  predicate StopsAt(task: Task) { Halts(NextSignal(task)) || AfterSignal(task).state != Running }

  /** One tick of the slice used. */
  function Spent(task: Task): Task {
    task.(cpuTicks := task.cpuTicks + 1, timeSlice := if task.timeSlice > 0 then task.timeSlice - 1 else 0)
  }

  /** The current task's record after the signal and the accounting of a tick that does not halt it. */
  function Charged(task: Task): Task { Spent(AfterSignal(task)) }

  /** `tick` with a current task that was halted, by the signal just taken or before: it only asks for a switch */
  function TickHalted(s: Sched, c: nat): (r: Sched)
    requires Known(s) && c in s.tasks
    ensures Known(r)
  {
    Put(s, c, AfterSignal(s.tasks[c])).(needReschedule := true)
  }

  /** `tick` with a running current task: accounting, and a switch when one was asked for or the slice is used up */
  function TickRunning(s: Sched, c: nat): (r: Sched)
    requires Known(s) && c in s.tasks
    ensures Known(r)
  {
    var task := Charged(s.tasks[c]);
    var s1 := Put(s, c, task);
    if s.needReschedule || task.timeSlice == 0 then Schedule(s1.(needReschedule := true)) else s1
  }

  /** `tick` with a current task */
  function TickCurrent(s: Sched, c: nat): (r: Sched)
    requires Known(s) && c in s.tasks
    ensures Known(r)
  {
    if StopsAt(s.tasks[c]) then TickHalted(s, c)
    else TickRunning(s, c)
  }

  // ---------------------------------------------------------------- process control

  /** `block_current` */
  function BlockCurrent(s: Sched): (r: Sched)
    requires Known(s)
    ensures Known(r)
  {
    if s.current.None? then s else WithState(s, s.current.value, Blocked).(needReschedule := true)
  }

  /** `unblock_task` */
  function Unblock(s: Sched, id: nat): (r: (Sched, Result<Unit>))
    requires Known(s)
    ensures Known(r.0)
  {
    if id in s.all && s.tasks[id].state == Blocked
    then (WithState(s, id, Ready).(queue := s.queue + [id], needReschedule := true), Ok(Unit))
    else (s, Err(InvalidArgument))
  }

  /** `terminate_current` */
  function TerminateCurrent(s: Sched, code: int): (r: Sched)
    requires Known(s)
    ensures Known(r)
  {
    var s1 :=
      if s.current.None? then s
      else Put(s, s.current.value, s.tasks[s.current.value].(state := Terminated, exitCode := code));
    Schedule(s1.(needReschedule := true))
  }

  lemma WithoutMeaning(q: seq<nat>, id: nat, x: nat)
    ensures x in Without(q, id) <==> x in q && x != id
  {
  }

  lemma WithoutKnown(s: Sched, id: nat)
    requires Known(s)
    ensures forall t | t in Without(s.queue, id) :: t in s.tasks
  {
    forall t | t in Without(s.queue, id) { WithoutMeaning(s.queue, id, t); }
  }

  /** `terminate_task` */
  function TerminateTask(s: Sched, id: nat, code: int): (r: (Sched, Result<Unit>))
    requires Known(s)
    ensures Known(r.0)
  {
    if id <= 2 then (s, Err(AccessDenied))
    else if id !in s.all then (s, Err(InvalidArgument))
    else
      WithoutKnown(s, id);
      (Put(s, id, s.tasks[id].(state := Terminated, exitCode := code)).(
         needReschedule := true, queue := Without(s.queue, id)), Ok(Unit))
  }

  /** `send_signal` */
  function SendSignal(s: Sched, id: nat, signal: nat): (r: (Sched, Result<Unit>))
    requires Known(s)
    ensures Known(r.0)
  {
    if id !in s.all then (s, Err(InvalidArgument))
    else (Put(s, id, s.tasks[id].(pending := Send(s.tasks[id].pending, signal))), Ok(Unit))
  }

  /** `background_task` */
  function ToBackground(s: Sched, id: nat): (r: (Sched, Result<Unit>))
    requires Known(s)
    ensures Known(r.0)
  {
    if id !in s.all || s.tasks[id].foreground != Stopped then (s, Err(InvalidArgument))
    else
      var task := s.tasks[id];
      (Put(s, id, task.(foreground := Background, state := Ready, pending := Send(task.pending, SIGCONT))).(
         queue := s.queue + [id], needReschedule := true), Ok(Unit))
  }

  /** `foreground_task`: the test for a stopped task comes after the field is overwritten, so it never holds */
  function ToForeground(s: Sched, id: nat): (r: (Sched, Result<Unit>))
    requires Known(s)
    ensures Known(r.0)
  {
    if id !in s.all || s.tasks[id].foreground == Foreground then (s, Err(InvalidArgument))
    else (Put(s, id, s.tasks[id].(foreground := Foreground)), Ok(Unit))
  }

  // ---------------------------------------------------------------- cleanup

  /** The queue after `cleanup_terminated` removed the ids of `dead`. */
  function WithoutAll(q: seq<nat>, dead: seq<nat>): seq<nat>
    decreases |dead|
  {
    if dead == [] then q else WithoutAll(Without(q, dead[0]), dead[1..])
  }

  function TerminatedIn(tasks: map<nat, Task>, q: seq<nat>): (r: seq<nat>)
    requires forall t | t in q :: t in tasks
    ensures forall t :: t in r <==> t in q && tasks[t].state == Terminated
  {
    if q == [] then []
    else (if tasks[q[0]].state == Terminated then [q[0]] else []) + TerminatedIn(tasks, q[1..])
  }

  lemma {:induction false} WithoutAllMeaning(q: seq<nat>, dead: seq<nat>, x: nat)
    ensures x in WithoutAll(q, dead) <==> x in q && x !in dead
    decreases |dead|
  {
    if dead != [] {
      WithoutMeaning(q, dead[0], x);
      WithoutAllMeaning(Without(q, dead[0]), dead[1..], x);
    }
  }

  /** `cleanup_terminated` */
  function Cleanup(s: Sched): (r: Sched)
    requires Known(s)
    ensures Known(r)
  {
    var dead := TerminatedIn(s.tasks, s.all);
    CleanupKnown(s, dead);
    s.(all := WithoutAll(s.all, dead), queue := WithoutAll(s.queue, dead))
  }

  lemma CleanupKnown(s: Sched, dead: seq<nat>)
    requires Known(s)
    ensures Known(s.(all := WithoutAll(s.all, dead), queue := WithoutAll(s.queue, dead)))
  {
    forall t { WithoutAllMeaning(s.all, dead, t); }
    forall t { WithoutAllMeaning(s.queue, dead, t); }
  }
}
