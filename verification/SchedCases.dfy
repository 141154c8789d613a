/** Short runs of the scheduler of src/sched/scheduler.rs from the empty state, one for each thing that goes wrong. */
module SchedCases {
  import opened Kernel
  import opened Sched
  import opened SchedInvariant
  import opened SchedRuns
  import opened SchedHalt
  import Signals

  // ---------------------------------------------------------------- killed and alive again

  /** A signal sent to a task that has none pending or blocked is the next one it takes, and the only one. */
  lemma OnlySignal(task: Task, sent: Task, signal: nat)
    requires task.pending == 0 && task.blocked == 0 && signal < 32
    requires sent == task.(pending := Signals.Send(0, signal))
    ensures NextSignal(sent) == Some(signal) && AfterSignal(sent) == Deliver(task, Some(signal))
  {
    Signals.PopOnly(signal);
  }

  /** One task, listed as number 1 and current. */
  function Alone(task: Task, ticks: nat, needReschedule: bool): (r: Sched)
    ensures Known(r)
  {
    Sched(map[1 := task], [], [1], Some(1), 2, ticks, needReschedule, true, 1)
  }

  /** A scheduler with one task created at `a`, preemption on, after `schedule`. */
  function OneTask(a: nat): (r: Sched)
    ensures Known(r)
  {
    Schedule(Create(Empty(), Normal, Foreground, a).(preemptEnabled := true))
  }

  lemma OneTaskRuns(a: nat)
    ensures OneTask(a) == Alone(NewTask(Normal, Foreground, a).(state := Running), 0, false)
  {
    var s := Create(Empty(), Normal, Foreground, a).(preemptEnabled := true);
    assert s == Sched(map[1 := NewTask(Normal, Foreground, a)], [1], [1], None, 2, 0, false, true, 0);
    assert Pick(s) == Some(0);
    assert RemoveAt(s.queue, 0) == [];
  }

  /** `send_signal` to task 1 followed by a tick. */
  function SignalAndTick(s: Sched, signal: nat): (r: Sched)
    requires Known(s)
    ensures Known(r)
  {
    Tick(SendSignal(s, 1, signal).0)
  }

  lemma TickAlone(task: Task, ticks: nat, needReschedule: bool)
    requires Halts(NextSignal(task))
    ensures Tick(Alone(task, ticks, needReschedule)) == Alone(AfterSignal(task), ticks + 1, true)
  {
    var s := Alone(task, ticks + 1, needReschedule);
    assert TickHalted(s, 1).tasks == map[1 := AfterSignal(task)];
    TickIsTimer(Alone(task, ticks, needReschedule), s);
  }

  lemma SendAlone(task: Task, ticks: nat, needReschedule: bool, signal: nat)
    ensures SendSignal(Alone(task, ticks, needReschedule), 1, signal).0
      == Alone(task.(pending := Signals.Send(task.pending, signal)), ticks, needReschedule)
  {
  }

  lemma SignalHalts(task: Task, ticks: nat, needReschedule: bool, signal: nat)
    requires task.pending == 0 && task.blocked == 0 && Halts(Some(signal))
    ensures SignalAndTick(Alone(task, ticks, needReschedule), signal)
      == Alone(Deliver(task, Some(signal)), ticks + 1, true)
  {
    var sent := task.(pending := Signals.Send(0, signal));
    OnlySignal(task, sent, signal);
    TickAlone(sent, ticks, needReschedule);
    SendAlone(task, ticks, needReschedule, signal);
  }

  /** The only task, killed by a signal that a tick delivered. */
  lemma KilledAlone(a: nat, killed: Task)
    requires killed == NewTask(Normal, Foreground, a).(state := Terminated, exitCode := -9)
    ensures TickWillHalt(SendSignal(OneTask(a), 1, Signals.SIGKILL).0)
    ensures SignalAndTick(OneTask(a), Signals.SIGKILL) == Alone(killed, 1, true)
  {
    OneTaskRuns(a);
    var task := NewTask(Normal, Foreground, a).(state := Running);
    OnlySignal(task, task.(pending := Signals.Send(0, Signals.SIGKILL)), Signals.SIGKILL);
    SignalHalts(task, 0, false, Signals.SIGKILL);
  }

  lemma DeadAlone(killed: Task, s: Sched, rsp: nat)
    requires killed.state == Terminated && killed.foreground == Foreground && s == Alone(killed, 1, true)
    ensures Dead(s, 1) && !Dead(Preempt(s, rsp).0, 1)
    ensures forall n: nat :: Holds(s, TickN(s, n))
  {
    PreemptRevives(s, rsp);
    TicksNeverSwitch(s, 1);
  }

  /** A run from the empty scheduler to `s`: a task is created and runs, SIGKILL is sent to it and a tick kills it.  No
      number of further ticks switches away from it, and `preempt_schedule` puts it back to work. */
  lemma KilledTaskWorks(a: nat, rsp: nat, s: Sched)
    requires s == SignalAndTick(OneTask(a), Signals.SIGKILL)
    ensures TickWillHalt(SendSignal(OneTask(a), 1, Signals.SIGKILL).0)
    ensures Dead(s, 1) && s.current == Some(1) && !Dead(Preempt(s, rsp).0, 1)
    ensures forall n: nat :: Holds(s, TickN(s, n))
  {
    var killed := NewTask(Normal, Foreground, a).(state := Terminated, exitCode := -9);
    KilledAlone(a, killed);
    DeadAlone(killed, s, rsp);
  }

  /** With one task `preempt_schedule` counts a switch and returns to the same task. */
  lemma CountsSwitchToItself(a: nat, rsp: nat)
    ensures var s := Preempt(OneTask(a), rsp).0;
      s.current == Some(1) == OneTask(a).current && s.switches == OneTask(a).switches + 1
  {
    OneTaskRuns(a);
    var s1 := SaveCurrent(OneTask(a), rsp);
    assert s1.queue == [1];
    assert Pick(s1) == Some(0);
  }

  /** The task is stopped by a tick, killed by the next, and another task is created and runs. */
  function StoppedAndKilled(a: nat): (r: Sched)
    ensures Known(r)
  {
    Schedule(Create(SignalAndTick(SignalAndTick(OneTask(a), Signals.SIGTSTP), Signals.SIGKILL), Normal, Foreground, a))
  }

  lemma AnotherRuns(task: Task, other: Task, s: Sched)
    requires task.state == Terminated && other.state == Ready
    requires s.tasks == map[1 := task, 2 := other] && s.queue == [2] && s.all == [1, 2]
    requires s.current == Some(1) && s.nextId == 3
    ensures Wf(Schedule(s)) && Schedule(s).tasks[1] == task && Schedule(s).all == [1, 2]
  {
    assert Halted(s);
    ScheduleAfterHalt(s);
    ScheduleLeavesHalted(s, 1);
  }

  lemma FirstStopped(a: nat, s: Sched, stopped: Task)
    requires s == SignalAndTick(OneTask(a), Signals.SIGTSTP)
    requires stopped == NewTask(Normal, Foreground, a).(state := Blocked, foreground := Stopped)
    ensures s == Alone(stopped, 1, true)
  {
    OneTaskRuns(a);
    SignalHalts(NewTask(Normal, Foreground, a).(state := Running), 0, false, Signals.SIGTSTP);
  }

  lemma ThenKilled(a: nat, stopped: Task, killed: Task)
    requires stopped == NewTask(Normal, Foreground, a).(state := Blocked, foreground := Stopped)
    requires killed == stopped.(state := Terminated, exitCode := -9)
    ensures SignalAndTick(SignalAndTick(OneTask(a), Signals.SIGTSTP), Signals.SIGKILL) == Alone(killed, 2, true)
  {
    FirstStopped(a, SignalAndTick(OneTask(a), Signals.SIGTSTP), stopped);
    SignalHalts(stopped, 1, true, Signals.SIGKILL);
  }

  lemma StoppedAndKilledIs(a: nat)
    ensures var s := StoppedAndKilled(a);
      && Wf(s) && s.all == [1, 2] && s.tasks[1].state == Terminated && s.tasks[1].foreground == Stopped
  {
    var stopped := NewTask(Normal, Foreground, a).(state := Blocked, foreground := Stopped);
    var killed := stopped.(state := Terminated, exitCode := -9);
    ThenKilled(a, stopped, killed);
    AnotherRuns(killed, NewTask(Normal, Foreground, a), Create(Alone(killed, 2, true), Normal, Foreground, a));
  }

  /** A run from the empty scheduler after which `bg` revives a task that was stopped and then killed. */
  lemma StoppedTaskRevived(a: nat)
    ensures var s := StoppedAndKilled(a);
      && Wf(s) && Dead(s, 1) && Revives(s, Bg(1), 1)
      && !Dead(ToBackground(s, 1).0, 1) && 1 in ToBackground(s, 1).0.queue
  {
    StoppedAndKilledIs(a);
    BgRevives(StoppedAndKilled(a), 1);
  }

  lemma BgRevives(s: Sched, t: nat)
    requires Known(s) && t in s.all && s.tasks[t].foreground == Stopped
    ensures !Dead(ToBackground(s, t).0, t) && t in ToBackground(s, t).0.queue
  {
  }

  // ---------------------------------------------------------------- switched out without being saved

  /** Two tasks created at `a` and `b`, preemption on. */
  function TwoTasks(a: nat, b: nat): (r: Sched)
    ensures Known(r)
  {
    Create(Create(Empty(), Normal, Foreground, a), Normal, Foreground, b).(preemptEnabled := true)
  }

  /** From a queue of tasks of one priority the first is chosen. */
  lemma FirstChosen(s: Sched)
    requires Known(s) && AllReady(s) && s.queue != []
    requires forall i | 0 <= i < |s.queue| :: PriorityAt(s, i) == 1
    ensures Pick(s) == Some(0)
  {
    PickFindsBest(s);
    assert PriorityAt(s, 0) == 1 && PriorityAt(s, Pick(s).value) == 1;
  }

  lemma TwoTasksIs(a: nat, b: nat, one: Task, two: Task)
    requires one == NewTask(Normal, Foreground, a) && two == NewTask(Normal, Foreground, b)
    ensures TwoTasks(a, b) == Sched(map[1 := one, 2 := two], [1, 2], [1, 2], None, 3, 0, false, true, 0)
  {
  }

  lemma FirstRuns(one: Task, two: Task, s: Sched)
    requires one.state == two.state == Ready && one.priority == two.priority == Normal
    requires s == Sched(map[1 := one, 2 := two], [1, 2], [1, 2], None, 3, 0, false, true, 0)
    ensures Schedule(s) == Sched(map[1 := one.(state := Running), 2 := two], [2], [1, 2], Some(1), 3, 0, false, true, 1)
  {
    FirstChosen(s);
    assert RemoveAt(s.queue, 0) == [2];
    assert s.tasks[1 := one.(state := Running)] == map[1 := one.(state := Running), 2 := two];
  }

  lemma SecondRuns(one: Task, two: Task, s: Sched)
    requires one.state == Running && two.state == Ready && one.priority == two.priority == Normal
    requires s == Sched(map[1 := one, 2 := two], [2], [1, 2], Some(1), 3, 0, false, true, 1)
    ensures Schedule(s) == Sched(
      map[1 := Rested(one).(state := Ready), 2 := two.(state := Running)], [1], [1, 2], Some(2), 3, 0, false, true, 2)
  {
    var s1 := Requeue(s);
    assert s1.queue == [2, 1] && s1.tasks == map[1 := Rested(one).(state := Ready), 2 := two];
    FirstChosen(s1);
    assert RemoveAt(s1.queue, 0) == [1];
    assert s1.tasks[2 := two.(state := Running)] == map[1 := Rested(one).(state := Ready), 2 := two.(state := Running)];
  }

  lemma FirstAgain(one: Task, two: Task, s: Sched, rsp: nat)
    requires one.state == Ready && two.state == Running && one.priority == two.priority == Normal
    requires s == Sched(map[1 := one, 2 := two], [1], [1, 2], Some(2), 3, 0, false, true, 2)
    ensures Preempt(s, rsp).0.current == Some(1) && Preempt(s, rsp).1 == one.savedRsp
  {
    var s1 := SaveCurrent(s, rsp);
    assert s1.queue == [1, 2] && s1.tasks[1] == one;
    FirstChosen(s1);
  }

  /** Two tasks are created, `schedule` runs the first and then the second, and `preempt_schedule` returns to the first:
      on the stack pointer it was created with, although it ran since. */
  lemma RestartsFromScratch(a: nat, b: nat, rsp: nat)
    ensures var s := Schedule(TwoTasks(a, b));
      var s1 := Schedule(s);
      && s.current == Some(1) && s1.current == Some(2)
      && Preempt(s1, rsp).0.current == Some(1) && Preempt(s1, rsp).1 == a
  {
    var one, two := NewTask(Normal, Foreground, a), NewTask(Normal, Foreground, b);
    TwoTasksIs(a, b, one, two);
    FirstRuns(one, two, TwoTasks(a, b));
    SecondRuns(one.(state := Running), two, Schedule(TwoTasks(a, b)));
    var one1, two1 := Rested(one.(state := Running)).(state := Ready), two.(state := Running);
    FirstAgain(one1, two1, Schedule(Schedule(TwoTasks(a, b))), rsp);
  }
}
