/**
 What the fifteen operations of src/sched/scheduler.rs answer, and what they do to the wish for a switch, the lists and
 the states of the tasks, each said on the state before.
 */
module SchedEffects {
  import opened Kernel
  import opened Sched
  import opened SchedInvariant
  import opened SchedRuns
  import opened SchedLists
  import opened SchedSwitch
  import SchedHalt
  import Signals

  // ---------------------------------------------------------------- answers

  /** What a caller of the operation is told. */
  function Answer(s: Sched, op: Op): Result<Unit>
    requires Known(s)
  {
    match op
    case UnblockId(id) => Unblock(s, id).1
    case Kill(id, code) => TerminateTask(s, id, code).1
    case Signal(id, signal) => SendSignal(s, id, signal).1
    case Bg(id) => ToBackground(s, id).1
    case Fg(id) => ToForeground(s, id).1
    case _ => Ok(Unit)
  }

  /** The task named is one on which the operation works. */
  predicate Accepted(s: Sched, op: Op)
    requires Known(s)
  {
    match op
    case UnblockId(id) => id in s.all && s.tasks[id].state == Blocked
    case Kill(id, _) => id > 2 && id in s.all
    case Signal(id, _) => id in s.all
    case Bg(id) => id in s.all && s.tasks[id].foreground == Stopped
    case Fg(id) => id in s.all && s.tasks[id].foreground != Foreground
    case _ => true
  }

  /** Of the tasks only `id` changed, and neither the list of tasks nor the current one did. */
  predicate OnlyTask(s: Sched, r: Sched, id: nat) {
    && r.tasks.Keys == s.tasks.Keys && (forall t | t in s.tasks && t != id :: r.tasks[t] == s.tasks[t])
    && r.all == s.all && r.current == s.current && r.nextId == s.nextId
  }

  /** What an operation that names a task did to it and to the queue. */
  ghost predicate Done(s: Sched, op: Op, r: Sched)
    requires Known(s) && Known(r) && s.tasks.Keys <= r.tasks.Keys && Accepted(s, op)
  {
    match op
    case UnblockId(id) => OnlyTask(s, r, id) && r.tasks[id].state == Ready && r.queue == s.queue + [id]
    case Kill(id, code) =>
      && OnlyTask(s, r, id) && r.tasks[id].state == Terminated && r.tasks[id].exitCode == code
      && id !in r.queue && KeptInOrder(s.queue, r.queue, {id})
    case Signal(id, signal) =>
      && OnlyTask(s, r, id) && r.queue == s.queue && r.tasks[id].state == s.tasks[id].state
      && Signals.SetOf(r.tasks[id].pending) ==
         Signals.SetOf(s.tasks[id].pending) + (if signal < 32 then {signal} else {})
    case Bg(id) =>
      && OnlyTask(s, r, id) && r.tasks[id].foreground == Background && r.tasks[id].state == Ready
      && Signals.SIGCONT in Signals.SetOf(r.tasks[id].pending) && r.queue == s.queue + [id]
    case Fg(id) =>
      && OnlyTask(s, r, id) && r.tasks[id].foreground == Foreground && r.tasks[id].state == s.tasks[id].state
      && r.queue == s.queue
    case _ => true
  }

  /** Access is denied exactly to kills of tasks 0 to 2; any other operation that does not work on the task it names is
      answered by an invalid argument; an error changes nothing, and success means that the thing asked for is done. */
  ghost predicate Truthful(s: Sched, op: Op, r: Sched, answer: Result<Unit>)
    requires Known(s) && Known(r)
  {
    var denied := op.Kill? && op.id <= 2;
    && (answer == Ok(Unit) <==> Accepted(s, op))
    && (answer == Err(AccessDenied) <==> denied)
    && (answer == Err(InvalidArgument) <==> !Accepted(s, op) && !denied)
    && (answer.Err? ==> r == s)
    && (answer.Ok? ==> s.tasks.Keys <= r.tasks.Keys && Done(s, op, r))
  }

  lemma UnblockAnswers(s: Sched, id: nat)
    requires Known(s)
    ensures Truthful(s, UnblockId(id), Unblock(s, id).0, Unblock(s, id).1)
  {
  }

  lemma KillAnswers(s: Sched, id: nat, code: int)
    requires Known(s)
    ensures Truthful(s, Kill(id, code), TerminateTask(s, id, code).0, TerminateTask(s, id, code).1)
  {
    WithoutKept(s.queue, id);
    WithoutMeaning(s.queue, id, id);
  }

  lemma SignalAnswers(s: Sched, id: nat, signal: nat)
    requires Known(s)
    ensures Truthful(s, Signal(id, signal), SendSignal(s, id, signal).0, SendSignal(s, id, signal).1)
  {
    if id in s.all { Signals.SendIsInsert(s.tasks[id].pending, signal); }
  }

  lemma BgAnswers(s: Sched, id: nat)
    requires Known(s)
    ensures Truthful(s, Bg(id), ToBackground(s, id).0, ToBackground(s, id).1)
  {
    if id in s.all { Signals.SendIsInsert(s.tasks[id].pending, Signals.SIGCONT); }
  }

  lemma FgAnswers(s: Sched, id: nat)
    requires Known(s)
    ensures Truthful(s, Fg(id), ToForeground(s, id).0, ToForeground(s, id).1)
  {
  }

  /** Every answer is true: it says what the state before allows and what was done. */
  lemma AnswersIff(s: Sched, op: Op)
    requires Known(s) && (op.UnblockId? || op.Kill? || op.Signal? || op.Bg? || op.Fg?)
    ensures Truthful(s, op, Step(s, op), Answer(s, op))
  {
    match op
    case UnblockId(id) => UnblockAnswers(s, id);
    case Kill(id, code) => KillAnswers(s, id, code);
    case Signal(id, signal) => SignalAnswers(s, id, signal);
    case Bg(id) => BgAnswers(s, id);
    case Fg(id) => FgAnswers(s, id);
  }

  // ---------------------------------------------------------------- the wish for a switch

  /** A switch is asked for after the operation. */
  predicate Asked(s: Sched, op: Op)
    requires Known(s)
  {
    match op
    case Block => s.needReschedule || s.current.Some?
    case UnblockId(_) => s.needReschedule || Accepted(s, op)
    case Kill(_, _) => s.needReschedule || Accepted(s, op)
    case Bg(_) => s.needReschedule || Accepted(s, op)
    case TimerTick =>
      if s.preemptEnabled then s.current.Some? && SignalState(s.tasks[s.current.value]) != Running
      else s.needReschedule
    case PreemptAt(_) => s.needReschedule
    case _ => s.needReschedule && !Chooses(s, op)
  }

  /** `terminate_current` before its switch */
  function Ended(s: Sched, code: int): (r: Sched)
    requires Known(s)
    ensures Known(r) && TerminateCurrent(s, code) == Schedule(r)
  {
    var s1 :=
      if s.current.None? then s
      else Put(s, s.current.value, s.tasks[s.current.value].(state := Terminated, exitCode := code));
    s1.(needReschedule := true)
  }

  lemma TimerAsks(s: Sched, s0: Sched)
    requires Known(s) && s0 == s.(ticks := s.ticks + 1)
    ensures Timer(s0).needReschedule <==> Asked(s, TimerTick)
  {
    if s.preemptEnabled && s.current.Some? { StopsIffNotRunning(s.tasks[s.current.value]); }
  }

  lemma ScheduleAsksNothing(s: Sched)
    requires Known(s)
    ensures !Schedule(s).needReschedule
  {
  }

  lemma DirectAsks(s: Sched, op: Op)
    requires Known(s) && Direct(op)
    ensures Step(s, op).needReschedule <==> Asked(s, op)
  {
  }

  /** After every operation a switch is asked for exactly when the state before says so. */
  lemma AsksIff(s: Sched, op: Op)
    requires Known(s)
    ensures Step(s, op).needReschedule <==> Asked(s, op)
  {
    match op
    case ScheduleNow => ScheduleAsksNothing(s);
    case YieldNow => ScheduleAsksNothing(s.(needReschedule := true));
    case BlockAndSchedule => ScheduleAsksNothing(BlockCurrent(s));
    case Exit(code) => ScheduleAsksNothing(Ended(s, code));
    case PreemptAt(_) =>
    case TimerTick =>
      var s0 := s.(ticks := s.ticks + 1);
      TickIsTimer(s, s0);
      TimerAsks(s, s0);
    case _ => DirectAsks(s, op);
  }

  // ---------------------------------------------------------------- the lists

  /** The queue after an operation that chooses no task. */
  ghost predicate QueueAfter(s: Sched, op: Op, r: Sched)
    requires Known(s)
  {
    match op
    case CreateTask(_, _, _) => r.queue == s.queue + [s.nextId]
    case UnblockId(id) => r.queue == s.queue + (if Accepted(s, op) then [id] else [])
    case Bg(id) => r.queue == s.queue + (if Accepted(s, op) then [id] else [])
    case Kill(id, _) => if Accepted(s, op) then KeptInOrder(s.queue, r.queue, {id}) else r.queue == s.queue
    case CleanUp => KeptInOrder(s.queue, r.queue, Finished(s))
    case _ => r.queue == s.queue
  }

  lemma TimerKeepsQueue(s: Sched, s0: Sched)
    requires Known(s) && !TickChooses(s) && s0 == s.(ticks := s.ticks + 1)
    ensures Timer(s0).current == s.current && Timer(s0).queue == s.queue
  {
    if s.preemptEnabled && s.current.Some? { StopsIffNotRunning(s.tasks[s.current.value]); }
  }

  /** An operation that chooses no task leaves the current one, and adds to the back of the queue or takes off it only
      what it names. */
  lemma OtherwiseQueueKept(s: Sched, op: Op)
    requires Known(s) && !Chooses(s, op)
    ensures Step(s, op).current == s.current && QueueAfter(s, op, Step(s, op))
  {
    match op
    case TimerTick =>
      var s0 := s.(ticks := s.ticks + 1);
      TickIsTimer(s, s0);
      TimerKeepsQueue(s, s0);
    case Kill(id, _) => WithoutKept(s.queue, id);
    case CleanUp => CleanupMeaning(s);
    case _ =>
  }

  /** The list of tasks, the ids and the switch for preemption. */
  ghost predicate ListsAfter(s: Sched, op: Op, r: Sched)
    requires Known(s)
  {
    && (if op.CreateTask? then r.all == s.all + [s.nextId]
        else if op.CleanUp? then KeptInOrder(s.all, r.all, Finished(s))
        else r.all == s.all)
    && r.tasks.Keys == s.tasks.Keys + (if op.CreateTask? then {s.nextId} else {})
    && r.nextId == s.nextId + (if op.CreateTask? then 1 else 0)
    && r.preemptEnabled == if op.SetPreemption? then op.enabled else s.preemptEnabled
  }

  /** The same ids, listed the same. */
  predicate SameLists(s: Sched, r: Sched) {
    r.all == s.all && r.tasks.Keys == s.tasks.Keys && r.nextId == s.nextId && r.preemptEnabled == s.preemptEnabled
  }

  lemma RequeueLists(s: Sched)
    requires Known(s)
    ensures SameLists(s, Requeue(s))
  {
  }

  lemma DispatchLists(s: Sched, i: nat)
    requires Known(s) && i < |s.queue|
    ensures SameLists(s, Dispatch(s, i))
  {
  }

  lemma ScheduleLists(s: Sched, r: Sched)
    requires Known(s) && r == Schedule(s)
    ensures SameLists(s, r)
  {
    var s1 := Requeue(s.(needReschedule := false));
    RequeueLists(s.(needReschedule := false));
    if Pick(s1).Some? { DispatchLists(s1, Pick(s1).value); }
  }

  lemma TimerLists(s: Sched, r: Sched)
    requires Known(s) && r == Timer(s)
    ensures SameLists(s, r)
  {
    if s.preemptEnabled {
      match s.current
      case None => ScheduleLists(s, Schedule(s));
      case Some(c) =>
        var s2 := Put(s, c, Charged(s.tasks[c])).(needReschedule := true);
        ScheduleLists(s2, Schedule(s2));
    }
  }

  lemma DirectLists(s: Sched, op: Op)
    requires Known(s) && Direct(op) && !op.CleanUp?
    ensures ListsAfter(s, op, Step(s, op))
  {
  }

  lemma PreemptLists(s: Sched, rsp: nat, s1: Sched)
    requires Known(s) && s1 == SaveCurrent(s, rsp)
    ensures SameLists(s, Preempt(s, rsp).0)
  {
    if Pick(s1).Some? { DispatchLists(s1, Pick(s1).value); }
  }

  /** `schedule` after a change that keeps the lists. */
  lemma ThenScheduleLists(s: Sched, s0: Sched, r: Sched)
    requires Known(s) && Known(s0) && SameLists(s, s0) && r == Schedule(s0)
    ensures SameLists(s, r)
  {
    ScheduleLists(s0, r);
  }

  lemma TickLists(s: Sched, s0: Sched, r: Sched)
    requires Known(s) && s0 == s.(ticks := s.ticks + 1) && r == Tick(s)
    ensures SameLists(s, r)
  {
    TickIsTimer(s, s0);
    TimerLists(s0, r);
  }

  lemma HaltLists(s: Sched, code: int)
    requires Known(s)
    ensures SameLists(s, BlockCurrent(s)) && SameLists(s, Ended(s, code))
  {
  }

  lemma SwitchLists(s: Sched, op: Op, r: Sched)
    requires Known(s) && !Direct(op) && r == Step(s, op)
    ensures SameLists(s, r)
  {
    match op
    case ScheduleNow => ScheduleLists(s, r);
    case YieldNow => ThenScheduleLists(s, s.(needReschedule := true), r);
    case BlockAndSchedule =>
      HaltLists(s, 0);
      ThenScheduleLists(s, BlockCurrent(s), r);
    case Exit(code) =>
      HaltLists(s, code);
      ThenScheduleLists(s, Ended(s, code), r);
    case PreemptAt(rsp) => PreemptLists(s, rsp, SaveCurrent(s, rsp));
    case TimerTick => TickLists(s, s.(ticks := s.ticks + 1), r);
  }

  /** Tasks are listed in the order of their creation, under new ids, until they are cleaned up. */
  lemma StepLists(s: Sched, op: Op)
    requires Known(s)
    ensures ListsAfter(s, op, Step(s, op))
  {
    if op.CleanUp? {
      CleanupMeaning(s);
    } else if Direct(op) {
      DirectLists(s, op);
    } else {
      SwitchLists(s, op, Step(s, op));
    }
  }

  // ---------------------------------------------------------------- the states of the tasks

  /** The state of `t` after an operation, when `now` is then current. */
  function StateAfter(s: Sched, op: Op, t: nat, now: Option<nat>): TaskState
    requires Known(s) && t in s.tasks
  {
    if Chooses(s, op) && Candidates(s, op) != [] && now == Some(t) then Running
    else if Chooses(s, op) && GoesBack(s, op) && s.current == Some(t) then Ready
    else if s.current == Some(t) && (op.Block? || op.BlockAndSchedule?) then Blocked
    else if s.current == Some(t) && op.Exit? then Terminated
    else if s.current == Some(t) && op.TimerTick? && s.preemptEnabled then SignalState(s.tasks[t])
    else if op.Kill? && op.id == t && Accepted(s, op) then Terminated
    else if (op.UnblockId? || op.Bg?) && op.id == t && Accepted(s, op) then Ready
    else s.tasks[t].state
  }

  predicate Stated(s: Sched, op: Op, t: nat, r: Sched)
    requires Known(s) && t in s.tasks
  {
    t in r.tasks && r.tasks[t].state == StateAfter(s, op, t, r.current)
  }

  lemma QueuedState(s: Sched, op: Op, t: nat)
    requires Known(s) && t in s.tasks && (op.UnblockId? || op.Bg?)
    ensures Stated(s, op, t, Step(s, op))
  {
  }

  lemma NamedState(s: Sched, op: Op, t: nat)
    requires Known(s) && t in s.tasks && (op.Kill? || op.Signal? || op.Fg?)
    ensures Stated(s, op, t, Step(s, op))
  {
  }

  lemma PlainState(s: Sched, op: Op, t: nat)
    requires Known(s) && t in s.tasks && !Chooses(s, op)
    requires op.CreateTask? || op.Block? || op.CleanUp? || op.SetPreemption? || op.PreemptAt?
    ensures Stated(s, op, t, Step(s, op))
  {
  }

  /** `schedule` touches, besides the task that it takes, only a running current one. */
  lemma ScheduleState(s: Sched, t: nat, r: Sched)
    requires Known(s) && t in s.tasks && r == Schedule(s)
    requires r.current != Some(t) || (s.queue == [] && !(s.current.Some? && s.tasks[s.current.value].state == Running))
    ensures t in r.tasks
    ensures r.tasks[t].state ==
      if s.current == Some(t) && s.tasks[t].state == Running then Ready else s.tasks[t].state
  {
  }

  /** The task that became current by a choice runs. */
  lemma ChosenRuns(s: Sched, op: Op, t: nat, r: Sched)
    requires Known(s) && t in s.tasks && Chosen(s, Candidates(s, op), r) && Candidates(s, op) != []
    requires r.current == Some(t)
    ensures t in r.tasks && r.tasks[t].state == Running
  {
  }

  lemma ExitState(s: Sched, code: int, t: nat, r: Sched)
    requires Known(s) && t in s.tasks && r == TerminateCurrent(s, code) && (r.current != Some(t) || s.queue == [])
    ensures t in r.tasks && r.tasks[t].state == if s.current == Some(t) then Terminated else s.tasks[t].state
  {
    ScheduleState(Ended(s, code), t, r);
  }

  lemma BlockState(s: Sched, t: nat, r: Sched)
    requires Known(s) && t in s.tasks && r == Schedule(BlockCurrent(s)) && (r.current != Some(t) || s.queue == [])
    ensures t in r.tasks && r.tasks[t].state == if s.current == Some(t) then Blocked else s.tasks[t].state
  {
    ScheduleState(BlockCurrent(s), t, r);
  }

  lemma PreemptState(s: Sched, rsp: nat, t: nat, s1: Sched, r: Sched)
    requires Known(s) && t in s.tasks && s1 == SaveCurrent(s, rsp) && r == Preempt(s, rsp).0 && s.preemptEnabled
    requires Pick(s1).None? ==> s.current.None?
    requires Pick(s1).Some? ==> r.current != Some(t)
    ensures t in r.tasks && r.tasks[t].state == if s.current == Some(t) then Ready else s.tasks[t].state
  {
  }

  lemma TimerStayState(s: Sched, t: nat, s0: Sched, r: Sched)
    requires Known(s) && t in s.tasks && s0 == s.(ticks := s.ticks + 1) && r == Timer(s0) && !TickChooses(s)
    ensures Stated(s, TimerTick, t, r)
  {
    if s.current.Some? { StopsIffNotRunning(s.tasks[s.current.value]); }
  }

  lemma TimerStartState(s: Sched, t: nat, s0: Sched, r: Sched)
    requires Known(s) && t in s.tasks && s0 == s.(ticks := s.ticks + 1) && r == Timer(s0)
    requires TickChooses(s) && s.current.None? && (r.current != Some(t) || s.queue == [])
    ensures Stated(s, TimerTick, t, r)
  {
    TimerStarts(s, s0);
    ScheduleState(s0, t, r);
  }

  lemma TimerTurnState(s: Sched, c: nat, t: nat, s0: Sched, s2: Sched, r: Sched)
    requires Known(s) && t in s.tasks && s0 == s.(ticks := s.ticks + 1) && r == Timer(s0)
    requires TickChooses(s) && s.current == Some(c) && r.current != Some(t)
    requires s2 == Put(s0, c, Charged(s.tasks[c])).(needReschedule := true)
    ensures Stated(s, TimerTick, t, r)
  {
    TickSchedules(s, c, s0, s2);
    ChargedRuns(s.tasks[c]);
    ScheduleState(s2, t, r);
  }

  lemma TimerState(s: Sched, t: nat, s0: Sched, r: Sched)
    requires Known(s) && t in s.tasks && s0 == s.(ticks := s.ticks + 1) && r == Timer(s0)
    requires TickChooses(s) ==> r.current != Some(t) || Candidates(s, TimerTick) == []
    ensures Stated(s, TimerTick, t, r)
  {
    if !TickChooses(s) {
      TimerStayState(s, t, s0, r);
    } else {
      match s.current
      case None => TimerStartState(s, t, s0, r);
      case Some(c) =>
        TimerTurnState(s, c, t, s0, Put(s0, c, Charged(s.tasks[c])).(needReschedule := true), r);
    }
  }

  lemma PreemptPicks(s: Sched, rsp: nat, q: seq<nat>, s1: Sched)
    requires SchedHalt.Good(s) && s1 == SaveCurrent(s, rsp)
    requires q == if s.current.Some? then s.queue + [s.current.value] else s.queue
    ensures Pick(s1).None? <==> q == []
  {
    PoisedSaved(s, rsp, q, s1);
    PicksBest(s, q, s1);
  }

  lemma PreemptStated(s: Sched, op: Op, t: nat, r: Sched)
    requires Known(s) && t in s.tasks && op.PreemptAt? && s.preemptEnabled && t in r.tasks
    requires r.current != Some(t) || Candidates(s, op) == []
    requires r.tasks[t].state == if s.current == Some(t) then Ready else s.tasks[t].state
    ensures Stated(s, op, t, r)
  {
  }

  lemma PreemptLeft(s: Sched, op: Op, t: nat, q: seq<nat>, r: Sched)
    requires SchedHalt.Good(s) && t in s.tasks && op.PreemptAt? && q == Candidates(s, op)
    requires r == Preempt(s, op.rsp).0 && s.preemptEnabled && (r.current != Some(t) || q == [])
    ensures Stated(s, op, t, r)
  {
    PreemptPicks(s, op.rsp, q, SaveCurrent(s, op.rsp));
    PreemptState(s, op.rsp, t, SaveCurrent(s, op.rsp), r);
    PreemptStated(s, op, t, r);
  }

  lemma ScheduleLeft(s: Sched, op: Op, t: nat, s0: Sched, r: Sched)
    requires Known(s) && t in s.tasks && (op.ScheduleNow? || op.YieldNow?)
    requires s0 == s.(needReschedule := s0.needReschedule) && r == Schedule(s0)
    requires r.current != Some(t) || Candidates(s, op) == []
    ensures Stated(s, op, t, r)
  {
    ScheduleState(s0, t, r);
  }

  lemma HaltLeft(s: Sched, op: Op, t: nat, r: Sched)
    requires Known(s) && t in s.tasks && (op.BlockAndSchedule? || op.Exit?) && t in r.tasks
    requires r.current != Some(t) || Candidates(s, op) == []
    requires r.tasks[t].state ==
      if s.current != Some(t) then s.tasks[t].state else if op.Exit? then Terminated else Blocked
    ensures Stated(s, op, t, r)
  {
  }

  /** What a choice does to the tasks that it does not take. */
  lemma LeftState(s: Sched, op: Op, t: nat, r: Sched)
    requires SchedHalt.Good(s) && t in s.tasks && Chooses(s, op) && !op.TimerTick? && r == Step(s, op)
    requires r.current != Some(t) || Candidates(s, op) == []
    ensures Stated(s, op, t, r)
  {
    match op
    case ScheduleNow => ScheduleLeft(s, op, t, s, r);
    case YieldNow => ScheduleLeft(s, op, t, s.(needReschedule := true), r);
    case BlockAndSchedule =>
      BlockState(s, t, r);
      HaltLeft(s, op, t, r);
    case Exit(code) =>
      ExitState(s, code, t, r);
      HaltLeft(s, op, t, r);
    case PreemptAt(_) => PreemptLeft(s, op, t, Candidates(s, op), r);
  }

  /** After every operation the state of every task is the one that the state before and the choice made say. */
  lemma StepStates(s: Sched, op: Op, t: nat)
    requires SchedHalt.Good(s) && t in s.tasks
    ensures Stated(s, op, t, Step(s, op))
  {
    var r := Step(s, op);
    if Chooses(s, op) && Candidates(s, op) != [] && r.current == Some(t) {
      StepChooses(s, op);
      ChosenRuns(s, op, t, r);
    } else if op.TimerTick? {
      var s0 := s.(ticks := s.ticks + 1);
      TickIsTimer(s, s0);
      TimerState(s, t, s0, r);
    } else if Chooses(s, op) {
      LeftState(s, op, t, r);
    } else if op.UnblockId? || op.Bg? {
      QueuedState(s, op, t);
    } else if op.Kill? || op.Signal? || op.Fg? {
      NamedState(s, op, t);
    } else {
      PlainState(s, op, t);
    }
  }
}
