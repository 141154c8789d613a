/**
 The scheduler of src/sched/scheduler.rs as it works: task objects shared by the ready queue, the list of all tasks and
 the current slot, updated in place.  Every method is proved against the operation of `Sched` on the value `View()`.
 */
module Scheduler {
  import opened Kernel
  import opened Signals
  import opened Model = Sched
  import SchedInvariant

  /** `Arc<Mutex<Task>>` */
  class Tcb {
    const id: nat
    var state: TaskState
    var priority: Priority
    var foreground: Foreground
    var savedRsp: nat
    var timeSlice: nat
    var defaultTimeSlice: nat
    var totalCpuTicks: nat
    var exitCode: int
    var pendingSignals: Mask
    var blockedSignals: Mask

    ghost function View(): Task
      reads this
    {
      Task(state, priority, foreground, savedRsp, timeSlice, defaultTimeSlice, totalCpuTicks, exitCode, pendingSignals,
           blockedSignals)
    }

    constructor (id: nat, priority: Priority, foreground: Foreground, rsp: nat)
      ensures this.id == id && View() == NewTask(priority, foreground, rsp)
    {
      this.id := id;
      state := Ready;
      this.priority := priority;
      this.foreground := foreground;
      savedRsp := rsp;
      timeSlice := DEFAULT_TIME_SLICE;
      defaultTimeSlice := DEFAULT_TIME_SLICE;
      totalCpuTicks := 0;
      exitCode := 0;
      pendingSignals := 0;
      blockedSignals := 0;
    }

    /** `reset_time_slice` */
    method ResetTimeSlice()
      modifies this
      ensures View() == Rested(old(View()))
    {
      timeSlice := defaultTimeSlice;
    }

    /** `send_signal` */
    method SendSignal(signal: nat)
      modifies this
      ensures View() == old(View()).(pending := Send(old(pendingSignals), signal))
    {
      pendingSignals := Send(pendingSignals, signal);
    }

    /** `pop_signal` */
    method PopSignal() returns (signal: Option<nat>)
      modifies this
      ensures (signal, pendingSignals) == Pop(old(pendingSignals), old(blockedSignals))
      ensures View() == old(View()).(pending := pendingSignals)
    {
      var popped := Pop(pendingSignals, blockedSignals);
      pendingSignals := popped.1;
      return popped.0;
    }

    /** The part of `tick` that takes a signal: whether it ends the tick. */
    method TakeSignal() returns (halted: bool)
      modifies this
      ensures View() == AfterSignal(old(View())) && halted == Halts(NextSignal(old(View())))
    {
      halted := false;
      if pendingSignals != 0 {
        var signal := PopSignal();
        if signal == Some(SIGKILL) {
          state := Terminated;
          exitCode := -9;
          halted := true;
        } else if signal == Some(SIGTSTP) {
          foreground := Stopped;
          state := Blocked;
          halted := true;
        } else if signal == Some(SIGCONT) && foreground == Stopped {
          foreground := Background;
          state := Running;
        }
      }
    }

    /** The part of `tick` that charges the task: whether its slice is used up. */
    method Charge() returns (expired: bool)
      modifies this
      ensures View() == Spent(old(View())) && expired == (timeSlice == 0)
    {
      totalCpuTicks := totalCpuTicks + 1;
      if timeSlice > 0 { timeSlice := timeSlice - 1; }
      expired := timeSlice == 0;
    }
  }

  /** The ids of a queue. */
  function Ids(q: seq<Tcb>): seq<nat> { seq(|q|, i requires 0 <= i < |q| => q[i].id) }

  /** The ids of the terminated tasks among `q`. */
  ghost function Dead(q: seq<Tcb>): seq<nat>
    reads q
  {
    if q == [] then [] else (if q[0].state == Terminated then [q[0].id] else []) + Dead(q[1..])
  }

  /** The ids that `cleanup_terminated` collects */
  method CollectDead(q: seq<Tcb>) returns (dead: seq<nat>)
    ensures dead == Dead(q)
  {
    dead := [];
    var i := 0;
    assert q[0..] == q;
    while i < |q|
      invariant 0 <= i <= |q| && dead + Dead(q[i..]) == Dead(q)
    {
      assert q[i..][0] == q[i] && q[i..][1..] == q[i + 1..];
      if q[i].state == Terminated { dead := dead + [q[i].id]; }
      i := i + 1;
    }
  }

  /** `retain(|a| a.id != id)` */
  method Retain(q: seq<Tcb>, id: nat) returns (r: seq<Tcb>)
    ensures Ids(r) == Without(Ids(q), id)
    ensures forall t | t in r :: t in q
  {
    r := [];
    var i := 0;
    assert Ids(q)[0..] == Ids(q);
    while i < |q|
      invariant 0 <= i <= |q| && Ids(r) + Without(Ids(q)[i..], id) == Without(Ids(q), id)
      invariant forall t | t in r :: t in q
    {
      assert Ids(q)[i..] == [q[i].id] + Ids(q)[i + 1..];
      if q[i].id != id {
        assert Ids(r + [q[i]]) == Ids(r) + [q[i].id];
        r := r + [q[i]];
      }
      i := i + 1;
    }
  }

  class Scheduler {
    var readyQueue: seq<Tcb>
    var current: Tcb?
    var allTasks: seq<Tcb>
    var nextId: nat
    var tickCount: nat
    var needReschedule: bool
    var preemptEnabled: bool
    var contextSwitches: nat

    /** Every task ever made, by id. */
    ghost var known: map<nat, Tcb>

    ghost predicate Owns(t: Tcb)
      reads this`known
    {
      t.id in known && known[t.id] == t
    }

    ghost predicate Valid()
      reads this
    {
      && (forall id | id in known :: known[id].id == id && id < nextId)
      && (forall t | t in readyQueue :: Owns(t))
      && (forall t | t in allTasks :: Owns(t))
      && (current != null ==> Owns(current))
    }

    ghost function Tasks(): map<nat, Task>
      reads this`known, known.Values
    {
      map id | id in known :: known[id].View()
    }

    ghost function CurrentId(): Option<nat>
      reads this`current
    {
      if current == null then None else Some(current.id)
    }

    lemma IdsKnown(q: seq<Tcb>)
      requires forall t | t in q :: Owns(t)
      ensures forall id | id in Ids(q) :: id in known
    {
      forall id | id in Ids(q) ensures id in known {
        var i :| 0 <= i < |q| && Ids(q)[i] == id;
        assert Owns(q[i]);
      }
    }

    /** The value of the scheduler that the objects stand for. */
    ghost function View(): (s: Sched)
      requires Valid()
      reads this, known.Values
      ensures Known(s)
    {
      IdsKnown(readyQueue);
      IdsKnown(allTasks);
      Sched(Tasks(), Ids(readyQueue), Ids(allTasks), CurrentId(), nextId, tickCount, needReschedule, preemptEnabled,
            contextSwitches)
    }

    lemma TaskOf(t: Tcb)
      requires Valid() && Owns(t)
      ensures t.id in View().tasks && View().tasks[t.id] == t.View()
    {
    }

    /** An update in place of one task is an update of one entry of the view, seen through every alias. */
    twostate lemma Touched(t: Tcb)
      requires old(Valid()) && unchanged(this) && old(Owns(t))
      requires forall id | id in known && id != t.id :: unchanged(known[id])
      ensures Valid() && View() == Put(old(View()), t.id, t.View())
    {
      assert Tasks() == old(Tasks())[t.id := t.View()];
    }

    constructor ()
      ensures Valid() && View() == Empty()
    {
      readyQueue, current, allTasks, known := [], null, [], map[];
      nextId, tickCount, needReschedule, preemptEnabled, contextSwitches := 1, 0, false, false, 0;
    }

    method Register(task: Tcb)
      requires Valid() && task.id == nextId
      modifies this
      ensures Valid() && known == old(known)[task.id := task]
      ensures View() == Added(old(View()), task.View())
    {
      readyQueue := readyQueue + [task];
      allTasks := allTasks + [task];
      known := known[nextId := task];
      nextId := nextId + 1;
      assert Ids(readyQueue) == Ids(old(readyQueue)) + [task.id] && Ids(allTasks) == Ids(old(allTasks)) + [task.id];
      assert Tasks() == old(Tasks())[task.id := task.View()];
    }

    /** The `create_..._task` methods */
    method CreateTask(priority: Priority, foreground: Foreground, rsp: nat) returns (id: nat)
      requires Valid()
      modifies this
      ensures Valid() && View() == Create(old(View()), priority, foreground, rsp)
      ensures id == old(nextId) && id !in old(known)
    {
      id := nextId;
      var task := new Tcb(id, priority, foreground, rsp);
      Register(task);
    }

    /** The search of `pick_next_task` */
    method FindBest() returns (best: nat)
      requires Valid() && readyQueue != []
      ensures best == Scan(View(), 0, 0, Low)
    {
      best := 0;
      var bestPriority := Low;
      var i := 0;
      while i < |readyQueue|
        invariant 0 <= i <= |readyQueue| && 0 <= best < |readyQueue|
        invariant Scan(View(), 0, 0, Low) == Scan(View(), i, best, bestPriority)
      {
        var task := readyQueue[i];
        TaskOf(task);
        if task.state == Ready && Rank(task.priority) > Rank(bestPriority) {
          best, bestPriority := i, task.priority;
        }
        i := i + 1;
      }
    }

    /** `pick_next_task` */
    method PickNextTask() returns (next: Tcb?)
      requires Valid()
      modifies `readyQueue
      ensures Valid() && known == old(known) && (Pick(old(View())).None? ==> next == null && View() == old(View()))
      ensures Pick(old(View())).Some? ==> next != null && Owns(next) && Removed(old(View()), View(), next.id)
    {
      if readyQueue == [] { return null; }
      var best := FindBest();
      next := readyQueue[best];
      TaskOf(next);
      if next.state != Ready { return null; }
      readyQueue := readyQueue[..best] + readyQueue[best + 1..];
      assert Ids(readyQueue) == RemoveAt(old(View()).queue, best);
    }

    /** The start of `schedule`: a running current task goes to the back of the queue with a full slice. */
    method RequeueCurrent()
      requires Valid()
      modifies `readyQueue, known.Values
      ensures Valid() && known == old(known) && current == old(current) && View() == Requeue(old(View()))
    {
      var task := current;
      if task != null {
        TaskOf(task);
        if task.state == Running {
          task.state := Ready;
          task.ResetTimeSlice();
          Touched(task);
          PushBack(task);
        }
      }
    }

    /** `ready_queue.push_back` */
    method PushBack(task: Tcb)
      requires Valid() && Owns(task)
      modifies `readyQueue
      ensures Valid() && View() == old(View()).(queue := old(View()).queue + [task.id])
    {
      readyQueue := readyQueue + [task];
      assert Ids(readyQueue) == Ids(old(readyQueue)) + [task.id];
    }

    /** The chosen task runs. */
    method Start(next: Tcb)
      requires Valid() && Owns(next)
      modifies `current, known.Values
      ensures Valid() && known == old(known) && current == next
      ensures View() == WithState(old(View()), next.id, Running).(current := Some(next.id))
    {
      TaskOf(next);
      next.state := Running;
      Touched(next);
      current := next;
    }

    method SetRequest(request: bool)
      requires Valid()
      modifies `needReschedule
      ensures Valid() && known == old(known) && current == old(current)
      ensures View() == old(View()).(needReschedule := request)
    {
      needReschedule := request;
    }

    method CountSwitch()
      requires Valid()
      modifies `contextSwitches
      ensures Valid() && known == old(known) && View() == old(View()).(switches := old(View()).switches + 1)
    {
      contextSwitches := contextSwitches + 1;
    }

    /** The end of `schedule`: the chosen task runs, and a switch is counted unless it was the current one. */
    method SwitchTo(next: Tcb)
      requires Valid() && Owns(next)
      modifies `current, `contextSwitches, known.Values
      ensures Valid() && known == old(known)
      ensures View() == Counted(old(View()), WithState(old(View()), next.id, Running).(current := Some(next.id)))
    {
      var before := current;
      Start(next);
      if before != next { CountSwitch(); }
    }

    /** The rest of `schedule`, once the current task is back in the queue. */
    method RunNext()
      requires Valid()
      modifies this, known.Values
      ensures Valid() && known == old(known) && View() == NextRuns(old(View()))
    {
      var next := PickNextTask();
      if next != null {
        NextRunsIs(old(View()), View(), next.id);
        SwitchTo(next);
      }
    }

    /** `schedule` */
    method Schedule()
      requires Valid()
      modifies this, known.Values
      ensures Valid() && known == old(known) && View() == Model.Schedule(old(View()))
    {
      ScheduleIs(View(), View().(needReschedule := false));
      SetRequest(false);
      RequeueCurrent();
      RunNext();
    }

    // -------------------------------------------------------------- the timer

    method CountTick()
      requires Valid()
      modifies `tickCount
      ensures Valid() && known == old(known) && View() == old(View()).(ticks := old(View()).ticks + 1)
    {
      tickCount := tickCount + 1;
    }

    /** `tick` with a running current task, after its signal */
    method Account(task: Tcb)
      requires Valid() && Owns(task)
      modifies this, known.Values
      ensures Valid() && known == old(known) && View() == Accounted(old(View()), task.id)
    {
      TaskOf(task);
      var expired := task.Charge();
      Touched(task);
      if expired { SetRequest(true); }
      if needReschedule { Schedule(); }
    }

    /** `tick` with a current task */
    method TickTask(task: Tcb)
      requires Valid() && current == task
      modifies this, known.Values
      ensures Valid() && known == old(known) && View() == TickCurrent(old(View()), task.id)
    {
      TaskOf(task);
      AccountedIs(View(), task.id, Put(View(), task.id, AfterSignal(task.View())));
      var halted := task.TakeSignal();
      Touched(task);
      if halted || task.state != Running {
        SetRequest(true);
      } else {
        Account(task);
      }
    }

    /** `tick` */
    method Tick()
      requires Valid()
      modifies this, known.Values
      ensures Valid() && known == old(known) && View() == Model.Tick(old(View()))
    {
      SchedInvariant.TickIsTimer(View(), View().(ticks := View().ticks + 1));
      CountTick();
      if preemptEnabled {
        if current != null {
          TickTask(current);
        } else if needReschedule {
          Schedule();
        }
      }
    }

    // -------------------------------------------------------------- preemption

    /** The start of `preempt_schedule` */
    method Save(rsp: nat)
      requires Valid()
      modifies `readyQueue, known.Values
      ensures Valid() && known == old(known) && View() == SaveCurrent(old(View()), rsp)
    {
      var task := current;
      if task != null {
        TaskOf(task);
        task.savedRsp := rsp;
        task.state := Ready;
        task.ResetTimeSlice();
        Touched(task);
        PushBack(task);
      }
    }

    /** The rest of `preempt_schedule` when no task can be chosen */
    method KeepCurrent()
      requires Valid()
      modifies known.Values
      ensures Valid() && known == old(known) && View() == StaysOn(old(View()))
    {
      var task := current;
      if task != null {
        TaskOf(task);
        task.state := Running;
        Touched(task);
      }
    }

    method StartCounted(next: Tcb)
      requires Valid() && Owns(next)
      modifies `current, `contextSwitches, known.Values
      ensures Valid() && known == old(known) && View() == Started(old(View()), next.id)
    {
      Start(next);
      CountSwitch();
    }

    /** The rest of `preempt_schedule` */
    method Resume(rsp: nat) returns (r: nat)
      requires Valid()
      modifies this, known.Values
      ensures Valid() && known == old(known) && (View(), r) == Resumed(old(View()), rsp)
    {
      var next := PickNextTask();
      if next != null {
        TaskOf(next);
        ResumedIs(old(View()), View(), next.id, rsp);
        r := next.savedRsp;
        StartCounted(next);
      } else {
        KeepCurrent();
        r := rsp;
      }
    }

    /** `preempt_schedule` */
    method PreemptSchedule(rsp: nat) returns (r: nat)
      requires Valid()
      modifies this, known.Values
      ensures Valid() && known == old(known) && (View(), r) == Preempt(old(View()), rsp)
    {
      PreemptIs(View(), rsp);
      if !preemptEnabled { return rsp; }
      Save(rsp);
      r := Resume(rsp);
    }

    // -------------------------------------------------------------- process control

    /** The search for an id that the process control methods share */
    method Find(id: nat) returns (task: Tcb?)
      requires Valid()
      ensures task == null <==> id !in View().all
      ensures task != null ==> task.id == id && Owns(task)
    {
      var i := 0;
      while i < |allTasks|
        invariant 0 <= i <= |allTasks| && id !in Ids(allTasks)[..i]
      {
        if allTasks[i].id == id {
          assert Ids(allTasks)[i] == id;
          return allTasks[i];
        }
        assert Ids(allTasks)[..i + 1] == Ids(allTasks)[..i] + [allTasks[i].id];
        i := i + 1;
      }
      assert Ids(allTasks)[..i] == Ids(allTasks);
      return null;
    }

    method SetState(task: Tcb, state: TaskState)
      requires Valid() && Owns(task)
      modifies known.Values
      ensures Valid() && known == old(known) && View() == WithState(old(View()), task.id, state)
    {
      TaskOf(task);
      task.state := state;
      Touched(task);
    }

    /** `block_current` */
    method BlockCurrent()
      requires Valid()
      modifies this, known.Values
      ensures Valid() && known == old(known) && View() == Model.BlockCurrent(old(View()))
    {
      if current != null {
        SetState(current, Blocked);
        SetRequest(true);
      }
    }

    /** `unblock_task` */
    method UnblockTask(id: nat) returns (r: Result<Unit>)
      requires Valid()
      modifies this, known.Values
      ensures Valid() && known == old(known) && (View(), r) == Unblock(old(View()), id)
    {
      var task := Find(id);
      if task == null { return Err(InvalidArgument); }
      TaskOf(task);
      if task.state != Blocked { return Err(InvalidArgument); }
      SetState(task, Ready);
      PushBack(task);
      SetRequest(true);
      return Ok(Unit);
    }

    method Finish(task: Tcb, code: int)
      requires Valid() && Owns(task)
      modifies known.Values
      ensures Valid() && known == old(known)
      ensures View() == Put(old(View()), task.id, old(View()).tasks[task.id].(state := Terminated, exitCode := code))
    {
      TaskOf(task);
      task.state := Terminated;
      task.exitCode := code;
      Touched(task);
    }

    /** `terminate_current` */
    method TerminateCurrent(code: int)
      requires Valid()
      modifies this, known.Values
      ensures Valid() && known == old(known) && View() == Model.TerminateCurrent(old(View()), code)
    {
      if current != null { Finish(current, code); }
      SetRequest(true);
      Schedule();
    }

    /** `ready_queue.retain` */
    method DropFromQueue(id: nat)
      requires Valid()
      modifies `readyQueue
      ensures Valid() && known == old(known) && View() == old(View()).(queue := Without(old(View()).queue, id))
    {
      readyQueue := Retain(readyQueue, id);
    }

    /** `terminate_task` */
    method TerminateTask(id: nat, code: int) returns (r: Result<Unit>)
      requires Valid()
      modifies this, known.Values
      ensures Valid() && known == old(known) && (View(), r) == Model.TerminateTask(old(View()), id, code)
    {
      if id <= 2 { return Err(AccessDenied); }
      var task := Find(id);
      if task == null { return Err(InvalidArgument); }
      Finish(task, code);
      SetRequest(true);
      DropFromQueue(id);
      return Ok(Unit);
    }

    /** `send_signal` */
    method SendSignal(id: nat, signal: nat) returns (r: Result<Unit>)
      requires Valid()
      modifies this, known.Values
      ensures Valid() && known == old(known) && (View(), r) == Model.SendSignal(old(View()), id, signal)
    {
      var task := Find(id);
      if task == null { return Err(InvalidArgument); }
      TaskOf(task);
      task.SendSignal(signal);
      Touched(task);
      return Ok(Unit);
    }

    method Continue(task: Tcb)
      requires Valid() && Owns(task)
      modifies known.Values
      ensures Valid() && known == old(known) && View() == Continued(old(View()), task.id)
    {
      TaskOf(task);
      task.foreground := Background;
      task.state := Ready;
      task.SendSignal(SIGCONT);
      Touched(task);
    }

    /** `background_task` */
    method BackgroundTask(id: nat) returns (r: Result<Unit>)
      requires Valid()
      modifies this, known.Values
      ensures Valid() && known == old(known) && (View(), r) == ToBackground(old(View()), id)
    {
      var task := Find(id);
      if task == null { return Err(InvalidArgument); }
      TaskOf(task);
      if task.foreground != Stopped { return Err(InvalidArgument); }
      Continue(task);
      PushBack(task);
      SetRequest(true);
      return Ok(Unit);
    }

    /** `foreground_task`: the source tests the field for `Stopped` right after setting it, so no more happens */
    method ForegroundTask(id: nat) returns (r: Result<Unit>)
      requires Valid()
      modifies this, known.Values
      ensures Valid() && known == old(known) && (View(), r) == ToForeground(old(View()), id)
    {
      var task := Find(id);
      if task == null { return Err(InvalidArgument); }
      TaskOf(task);
      if task.foreground == Foreground { return Err(InvalidArgument); }
      task.foreground := Foreground;
      Touched(task);
      return Ok(Unit);
    }

    /** `yield_current` */
    method YieldCurrent()
      requires Valid()
      modifies this, known.Values
      ensures Valid() && known == old(known) && View() == Yield(old(View()))
    {
      SetRequest(true);
      Schedule();
    }

    /** `enable_preemption` and `disable_preemption` */
    method SetPreemption(enabled: bool)
      requires Valid()
      modifies `preemptEnabled
      ensures Valid() && known == old(known) && View() == old(View()).(preemptEnabled := enabled)
    {
      preemptEnabled := enabled;
    }

    // -------------------------------------------------------------- cleanup

    lemma {:induction false} DeadIsTerminated(q: seq<Tcb>)
      requires Valid() && forall t | t in q :: Owns(t)
      ensures forall id | id in Ids(q) :: id in View().tasks
      ensures Dead(q) == TerminatedIn(View().tasks, Ids(q))
      decreases |q|
    {
      IdsKnown(q);
      if q != [] {
        TaskOf(q[0]);
        DeadIsTerminated(q[1..]);
        assert Ids(q)[1..] == Ids(q[1..]);
      }
    }

    method DropFromAll(id: nat)
      requires Valid()
      modifies `allTasks
      ensures Valid() && known == old(known) && View() == old(View()).(all := Without(old(View()).all, id))
    {
      allTasks := Retain(allTasks, id);
    }

    method DropTask(id: nat)
      requires Valid()
      modifies `allTasks, `readyQueue
      ensures Valid() && known == old(known) && View() == Dropped(old(View()), id)
    {
      DropFromAll(id);
      DropFromQueue(id);
    }

    /** The loop of `cleanup_terminated` over the ids it collected */
    method DropAll(dead: seq<nat>)
      requires Valid()
      modifies `allTasks, `readyQueue
      ensures Valid() && known == old(known) && View() == Cleaned(old(View()), dead)
    {
      var i := 0;
      assert dead[0..] == dead;
      while i < |dead|
        invariant 0 <= i <= |dead| && Valid() && known == old(known)
        invariant Cleaned(View(), dead[i..]) == Cleaned(old(View()), dead)
      {
        CleanedStep(View(), dead, i);
        DropTask(dead[i]);
        i := i + 1;
      }
    }

    /** `cleanup_terminated` */
    method CleanupTerminated()
      requires Valid()
      modifies `allTasks, `readyQueue
      ensures Valid() && known == old(known) && View() == Cleanup(old(View()))
    {
      DeadIsTerminated(allTasks);
      var dead := CollectDead(allTasks);
      DropAll(dead);
    }
  }

  /** The state with a new task under the next id. */
  ghost function Added(s: Sched, task: Task): Sched {
    var t := s.nextId;
    s.(tasks := s.tasks[t := task], queue := s.queue + [t], all := s.all + [t], nextId := t + 1)
  }

  /** A switch is counted when another task is current. */
  function Counted(s: Sched, s1: Sched): Sched {
    if s1.current == s.current then s1 else s1.(switches := s1.switches + 1)
  }

  function NextRuns(s: Sched): (r: Sched)
    requires Known(s)
    ensures Known(r)
  {
    match Pick(s)
    case None => s
    case Some(i) => Counted(s, Dispatch(s, i))
  }

  /** The task that `Pick` chooses has left the queue. */
  predicate Removed(s: Sched, s1: Sched, id: nat)
    requires Known(s) && Pick(s).Some?
  {
    var i := Pick(s).value;
    id == s.queue[i] && s1 == s.(queue := RemoveAt(s.queue, i))
  }

  lemma NextRunsIs(s: Sched, s1: Sched, id: nat)
    requires Known(s) && Pick(s).Some? && Removed(s, s1, id)
    ensures NextRuns(s) == Counted(s1, WithState(s1, id, Running).(current := Some(id)))
  {
  }

  lemma ScheduleIs(s: Sched, s1: Sched)
    requires Known(s) && s1 == s.(needReschedule := false)
    ensures Known(s1) && Model.Schedule(s) == NextRuns(Requeue(s1))
  {
  }

  /** A tick charged to task `c`, and the switch that follows when one is due. */
  function Accounted(s: Sched, c: nat): (r: Sched)
    requires Known(s) && c in s.tasks
    ensures Known(r)
  {
    var s1 := Put(s, c, Spent(s.tasks[c]));
    if s.needReschedule || s1.tasks[c].timeSlice == 0 then Model.Schedule(s1.(needReschedule := true)) else s1
  }

  lemma AccountedIs(s: Sched, c: nat, s1: Sched)
    requires Known(s) && c in s.tasks && s1 == Put(s, c, AfterSignal(s.tasks[c]))
    ensures Known(s1)
    ensures TickCurrent(s, c) == if StopsAt(s.tasks[c]) then s1.(needReschedule := true) else Accounted(s1, c)
  {
    assert Put(s, c, Spent(s1.tasks[c])) == Put(s1, c, Spent(s1.tasks[c]));
  }

  /** The state after `preempt_schedule` found no task to run. */
  function StaysOn(s: Sched): (r: Sched)
    requires Known(s)
    ensures Known(r)
  {
    if s.current.Some? then WithState(s, s.current.value, Running) else s
  }

  function Started(s: Sched, id: nat): Sched
    requires Known(s) && id in s.tasks
  {
    WithState(s, id, Running).(current := Some(id), switches := s.switches + 1)
  }

  function Continued(s: Sched, id: nat): Sched
    requires Known(s) && id in s.tasks
  {
    var task := s.tasks[id];
    Put(s, id, task.(foreground := Background, state := Ready, pending := Send(task.pending, SIGCONT)))
  }

  /** `preempt_schedule` after the current task is saved */
  function Resumed(s: Sched, rsp: nat): (r: (Sched, nat))
    requires Known(s)
    ensures Known(r.0)
  {
    match Pick(s)
    case None => (StaysOn(s), rsp)
    case Some(i) =>
      var s1 := Dispatch(s, i);
      (s1.(switches := s1.switches + 1), s.tasks[s.queue[i]].savedRsp)
  }

  lemma ResumedIs(s: Sched, s1: Sched, id: nat, rsp: nat)
    requires Known(s) && Pick(s).Some? && Removed(s, s1, id)
    ensures Resumed(s, rsp) == (Started(s1, id), s1.tasks[id].savedRsp)
  {
  }

  lemma PreemptIs(s: Sched, rsp: nat)
    requires Known(s)
    ensures Preempt(s, rsp) == if !s.preemptEnabled then (s, rsp) else Resumed(SaveCurrent(s, rsp), rsp)
  {
  }

  ghost function Cleaned(s: Sched, dead: seq<nat>): Sched {
    s.(all := WithoutAll(s.all, dead), queue := WithoutAll(s.queue, dead))
  }

  ghost function Dropped(s: Sched, id: nat): Sched {
    s.(all := Without(s.all, id), queue := Without(s.queue, id))
  }

  lemma CleanedStep(s: Sched, dead: seq<nat>, i: nat)
    requires i < |dead|
    ensures Cleaned(s, dead[i..]) == Cleaned(Dropped(s, dead[i]), dead[i + 1..])
  {
    assert dead[i..][1..] == dead[i + 1..];
  }
}
