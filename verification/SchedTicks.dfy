/** Bounded waiting under the timer of src/sched/scheduler.rs: how many ticks pass before a waiting task runs. */
module SchedTicks {
  import opened Kernel
  import opened Signals
  import opened Sched
  import opened SchedInvariant
  import opened SchedFairness

  /** The ticks until a task that runs undisturbed is switched out. */
  function Quantum(task: Task): nat { if task.timeSlice > 0 then task.timeSlice else 1 }

  /** No SIGKILL or SIGTSTP can be delivered. */
  predicate QuietTask(task: Task) {
    SIGKILL !in SetOf(task.pending) - SetOf(task.blocked) && SIGTSTP !in SetOf(task.pending) - SetOf(task.blocked)
  }

  predicate Quiet(s: Sched) { forall t | t in s.tasks :: QuietTask(s.tasks[t]) }

  /** Preemption is on, the state is well-formed and quiet, and `c` runs. */
  predicate Runs(s: Sched, c: nat) { Wf(s) && Quiet(s) && s.preemptEnabled && s.current == Some(c) }

  lemma QuietSignal(task: Task)
    requires QuietTask(task)
    ensures !Halts(NextSignal(task)) && QuietTask(AfterSignal(task))
    ensures AfterSignal(task).timeSlice == task.timeSlice && AfterSignal(task).priority == task.priority
    ensures AfterSignal(task).defaultTimeSlice == task.defaultTimeSlice
  {
    PopIsRemoveLeast(task.pending, task.blocked);
  }

  // ---------------------------------------------------------------- one tick

  lemma ChargedMeaning(task: Task)
    requires QuietTask(task) && task.state == Running
    ensures Charged(task).state == Running && Charged(task).priority == task.priority && QuietTask(Charged(task))
    ensures Charged(task).timeSlice == if task.timeSlice > 0 then task.timeSlice - 1 else 0
    ensures !StopsAt(task)
  {
    QuietSignal(task);
    AfterSignalState(task);
  }

  /** `s1` is `s` with the current task's record replaced by one of the same state and priority. */
  predicate SameButCurrent(s: Sched, s1: Sched, c: nat) {
    && c in s.tasks && c in s1.tasks
    && s1.tasks == s.tasks[c := s1.tasks[c]]
    && s1.tasks[c].state == s.tasks[c].state && s1.tasks[c].priority == s.tasks[c].priority
    && QuietTask(s1.tasks[c])
    && s1.queue == s.queue && s1.all == s.all && s1.current == s.current && s1.nextId == s.nextId
    && s1.preemptEnabled == s.preemptEnabled
  }

  lemma SameButCurrentRuns(s: Sched, s1: Sched, c: nat)
    requires Runs(s, c) && SameButCurrent(s, s1, c)
    ensures Runs(s1, c)
  {
    SameStateKeepsWf(s, c, s1.tasks[c]);
    SameTasksSameWf(Put(s, c, s1.tasks[c]), s1);
  }

  lemma SameButCurrentRing(s: Sched, s1: Sched, c: nat, p: nat)
    requires Known(s) && Known(s1) && s.current == Some(c) && SameButCurrent(s, s1, c)
    ensures Waiting(s1, p) == Waiting(s, p) && CurrentAt(s1, p) == CurrentAt(s, p)
    ensures IsTop(s, p) ==> IsTop(s1, p)
  {
    assert Ranks(s1) == Ranks(s);
    if IsTop(s, p) && !CurrentAt(s, p) {
      var t :| t in s.queue && Rank(s.tasks[t].priority) == p;
      assert t in s1.queue && Rank(s1.tasks[t].priority) == p;
    }
  }

  /** The state with one tick counted and charged to the current task. */
  function ChargedState(s: Sched, c: nat): Sched
    requires c in s.tasks
  {
    Put(s.(ticks := s.ticks + 1), c, Charged(s.tasks[c]))
  }

  lemma ChargedIsSame(s: Sched, c: nat)
    requires Runs(s, c)
    ensures SameButCurrent(s, ChargedState(s, c), c)
  {
    ChargedMeaning(s.tasks[c]);
  }

  /** A tick on a quiet state charges the current task, then switches if its slice is used up or a switch was asked
      for. */
  lemma TickShape(s: Sched, c: nat, s1: Sched)
    requires Runs(s, c) && s1 == ChargedState(s, c)
    ensures Known(s1)
    ensures Tick(s) ==
      if s.needReschedule || s1.tasks[c].timeSlice == 0 then Schedule(s1.(needReschedule := true)) else s1
  {
    ChargedMeaning(s.tasks[c]);
    TickIsTimer(s, s.(ticks := s.ticks + 1));
  }

  // ---------------------------------------------------------------- a switch

  /** The ring turned from `s` to `s1`; every task but `c` kept its slice; the state is still quiet. */
  predicate Switched(s: Sched, s1: Sched, c: nat, p: nat)
    requires Known(s)
  {
    && Turned(s, s1, p) && Quiet(s1) && s1.preemptEnabled
    && s1.tasks.Keys == s.tasks.Keys
    && (forall t | t in s.tasks && t != c :: s1.tasks[t].timeSlice == s.tasks[t].timeSlice)
  }

  lemma RequeueSlices(s: Sched, c: nat)
    requires Known(s) && s.current == Some(c) && Quiet(s)
    ensures Quiet(Requeue(s)) && Requeue(s).tasks.Keys == s.tasks.Keys && Requeue(s).preemptEnabled == s.preemptEnabled
    ensures forall t | t in s.tasks && t != c :: Requeue(s).tasks[t].timeSlice == s.tasks[t].timeSlice
  {
  }

  lemma DispatchSlices(s: Sched, i: nat)
    requires Known(s) && i < |s.queue| && Quiet(s)
    ensures Quiet(Dispatch(s, i)) && Dispatch(s, i).tasks.Keys == s.tasks.Keys
    ensures Dispatch(s, i).preemptEnabled == s.preemptEnabled
    ensures forall t | t in s.tasks :: Dispatch(s, i).tasks[t].timeSlice == s.tasks[t].timeSlice
  {
  }

  lemma ScheduleSlices(s: Sched, s1: Sched, c: nat)
    requires Known(s) && s.current == Some(c) && Quiet(s)
    requires s1 == Requeue(s.(needReschedule := false)) && Pick(s1).Some?
    ensures Quiet(Schedule(s)) && Schedule(s).tasks.Keys == s.tasks.Keys
    ensures Schedule(s).preemptEnabled == s.preemptEnabled
    ensures forall t | t in s.tasks && t != c :: Schedule(s).tasks[t].timeSlice == s.tasks[t].timeSlice
  {
    RequeueSlices(s.(needReschedule := false), c);
    DispatchSlices(s1, Pick(s1).value);
  }

  lemma ScheduleSwitches(s: Sched, c: nat, p: nat)
    requires Runs(s, c) && IsTop(s, p)
    ensures Switched(s, Schedule(s), c, p)
  {
    var s1 := Requeue(s.(needReschedule := false));
    ScheduleTurns(s, p);
    RequeueIsRequeued(s, s.(needReschedule := false), p);
    IdlePick(s1);
    ScheduleSlices(s, s1, c);
  }

  /** A change of the current task's record before a switch does not matter for what the switch does. */
  lemma SwitchedAfterSame(s: Sched, s1: Sched, s2: Sched, c: nat, p: nat)
    requires Known(s) && Known(s1) && s.current == Some(c) && SameButCurrent(s, s1, c) && Switched(s1, s2, c, p)
    ensures Switched(s, s2, c, p)
  {
    SameButCurrentRing(s, s1, c, p);
    assert s.current == s1.current;
  }

  lemma TickSwitches(s: Sched, c: nat, p: nat, s1: Sched, s2: Sched)
    requires Runs(s, c) && IsTop(s, p) && s1 == ChargedState(s, c) && s2 == s1.(needReschedule := true)
    requires s.needReschedule || s1.tasks[c].timeSlice == 0
    ensures Switched(s, Tick(s), c, p)
  {
    TickShape(s, c, s1);
    ChargedIsSame(s, c);
    assert SameButCurrent(s, s2, c);
    SameButCurrentRuns(s, s2, c);
    SameButCurrentRing(s, s2, c, p);
    ScheduleSwitches(s2, c, p);
    SwitchedAfterSame(s, s2, Schedule(s2), c, p);
  }

  // ---------------------------------------------------------------- a quantum

  /** The tick was charged to the current task and it runs on. */
  predicate Steady(s: Sched, s1: Sched, c: nat, p: nat) {
    && Runs(s1, c) && IsTop(s1, p) && SameButCurrent(s, s1, c)
    && s.tasks[c].timeSlice == s1.tasks[c].timeSlice + 1 && s1.tasks[c].timeSlice >= 1
  }

  lemma TickSteady(s: Sched, c: nat, p: nat, s1: Sched)
    requires Runs(s, c) && IsTop(s, p) && s1 == ChargedState(s, c) && s1.tasks[c].timeSlice > 0
    ensures Steady(s, s1, c, p)
  {
    ChargedMeaning(s.tasks[c]);
    ChargedIsSame(s, c);
    SameButCurrentRuns(s, s1, c);
    SameButCurrentRing(s, s1, c, p);
  }

  /** A tick switches when a switch was asked for or the slice has one tick left, and charges the slice otherwise. */
  lemma TickOutcome(s: Sched, c: nat, p: nat)
    requires Runs(s, c) && IsTop(s, p)
    ensures s.needReschedule || Quantum(s.tasks[c]) == 1 ==> Switched(s, Tick(s), c, p)
    ensures !s.needReschedule && Quantum(s.tasks[c]) > 1 ==> Steady(s, Tick(s), c, p)
  {
    var s1 := ChargedState(s, c);
    TickShape(s, c, s1);
    ChargedMeaning(s.tasks[c]);
    if s.needReschedule || s1.tasks[c].timeSlice == 0 {
      TickSwitches(s, c, p, s1, s1.(needReschedule := true));
    } else {
      TickSteady(s, c, p, s1);
    }
  }

  /** What a tick does to a quiet state in which a task runs. */
  predicate Outcome(s: Sched, s1: Sched, p: nat) {
    s.current.Some? && Runs(s, s.current.value) && IsTop(s, p) ==>
      Switched(s, s1, s.current.value, p) || Steady(s, s1, s.current.value, p)
  }

  /** A run of nothing but timer ticks. */
  ghost predicate OnlyTicks(trace: seq<Sched>) {
    forall k | 0 <= k < |trace| - 1 :: Known(trace[k]) && trace[k + 1] == Tick(trace[k])
  }

  ghost predicate Outcomes(trace: seq<Sched>, p: nat) {
    forall i, j | 0 <= i < j < |trace| && j == i + 1 :: Outcome(trace[i], trace[j], p)
  }

  lemma TicksHaveOutcomes(trace: seq<Sched>, p: nat)
    requires OnlyTicks(trace)
    ensures Outcomes(trace, p)
  {
    forall i, j | 0 <= i < j < |trace| && j == i + 1
      ensures Outcome(trace[i], trace[j], p)
    {
      var s := trace[i];
      if s.current.Some? && Runs(s, s.current.value) && IsTop(s, p) {
        TickOutcome(s, s.current.value, p);
      }
    }
  }

  lemma SwitchedAfterSteady(s: Sched, s1: Sched, s2: Sched, c: nat, p: nat)
    requires Runs(s, c) && Steady(s, s1, c, p) && Switched(s1, s2, c, p)
    ensures Switched(s, s2, c, p)
  {
    SwitchedAfterSame(s, s1, s2, c, p);
  }

  function SliceOf(s: Sched, c: nat): nat { if c in s.tasks then Quantum(s.tasks[c]) else 0 }

  predicate RunsTop(s: Sched, c: nat, p: nat) { Runs(s, c) && IsTop(s, p) }

  predicate SwitchedFrom(s: Sched, s1: Sched, c: nat, p: nat) { Known(s) && Switched(s, s1, c, p) }

  lemma OutcomeFor(s: Sched, s1: Sched, c: nat, p: nat)
    requires RunsTop(s, c, p) && Outcome(s, s1, p)
    ensures SwitchedFrom(s, s1, c, p) || Steady(s, s1, c, p)
  {
  }

  lemma SteadyMeaning(s: Sched, s1: Sched, c: nat, p: nat)
    requires Steady(s, s1, c, p)
    ensures RunsTop(s1, c, p) && SliceOf(s, c) == SliceOf(s1, c) + 1 && SliceOf(s1, c) >= 1
  {
  }

  lemma SwitchedBack(s: Sched, s1: Sched, s2: Sched, c: nat, p: nat)
    requires RunsTop(s, c, p) && Outcome(s, s1, p) && !SwitchedFrom(s, s1, c, p) && SwitchedFrom(s1, s2, c, p)
    ensures SwitchedFrom(s, s2, c, p)
  {
    OutcomeFor(s, s1, c, p);
    SwitchedAfterSteady(s, s1, s2, c, p);
  }

  /** Each running state is followed by a switch or by a running state with one less to run. */
  ghost predicate Advances<S>(trace: seq<S>, runs: S -> bool, slice: S -> nat, switched: (S, S) -> bool) {
    forall i, j | 0 <= i < j < |trace| && j == i + 1 && runs(trace[i]) && !switched(trace[i], trace[j]) ::
      runs(trace[j]) && slice(trace[i]) == slice(trace[j]) + 1 && slice(trace[j]) >= 1
  }

  /** A switch seen from a state is a switch seen from the running state before it. */
  ghost predicate LooksBack<S>(trace: seq<S>, runs: S -> bool, switched: (S, S) -> bool) {
    forall i, j, k |
      0 <= i < j < |trace| && j == i + 1 && 0 <= k < |trace| && runs(trace[i]) && !switched(trace[i], trace[j]) ::
      switched(trace[j], trace[k]) ==> switched(trace[i], trace[k])
  }

  lemma {:induction false} SwitchComes<S>(
    trace: seq<S>, k: nat, runs: S -> bool, slice: S -> nat, switched: (S, S) -> bool)
    returns (i: nat)
    requires Advances(trace, runs, slice, switched) && LooksBack(trace, runs, switched)
    requires k < |trace| && runs(trace[k]) && slice(trace[k]) >= 1 && k + slice(trace[k]) < |trace|
    ensures k < i <= k + slice(trace[k]) && switched(trace[k], trace[i])
    decreases slice(trace[k])
  {
    var j := k + 1;
    if switched(trace[k], trace[j]) {
      i := j;
    } else {
      i := SwitchComes(trace, j, runs, slice, switched);
    }
  }

  function TopRunner(c: nat, p: nat): Sched -> bool { s => RunsTop(s, c, p) }

  function SliceFn(c: nat): Sched -> nat { s => SliceOf(s, c) }

  function SwitchFn(c: nat, p: nat): (Sched, Sched) -> bool { (s, s1) => SwitchedFrom(s, s1, c, p) }

  lemma TicksAdvance(trace: seq<Sched>, c: nat, p: nat)
    requires Outcomes(trace, p)
    ensures Advances(trace, TopRunner(c, p), SliceFn(c), SwitchFn(c, p))
  {
    forall i, j |
      0 <= i < j < |trace| && j == i + 1 && RunsTop(trace[i], c, p) && !SwitchedFrom(trace[i], trace[j], c, p)
      ensures RunsTop(trace[j], c, p) && SliceOf(trace[i], c) == SliceOf(trace[j], c) + 1 && SliceOf(trace[j], c) >= 1
    {
      OutcomeFor(trace[i], trace[j], c, p);
      SteadyMeaning(trace[i], trace[j], c, p);
    }
  }

  lemma TicksLookBack(trace: seq<Sched>, c: nat, p: nat)
    requires Outcomes(trace, p)
    ensures LooksBack(trace, TopRunner(c, p), SwitchFn(c, p))
  {
    forall i, j, k | 0 <= i < j < |trace| && j == i + 1 && 0 <= k < |trace| && RunsTop(trace[i], c, p)
      && !SwitchedFrom(trace[i], trace[j], c, p)
      ensures SwitchedFrom(trace[j], trace[k], c, p) ==> SwitchedFrom(trace[i], trace[k], c, p)
    {
      if SwitchedFrom(trace[j], trace[k], c, p) { SwitchedBack(trace[i], trace[j], trace[k], c, p); }
    }
  }

  /** Within its quantum the current task is switched out, and the ring turns. */
  lemma QuantumEnds(trace: seq<Sched>, k: nat, c: nat, p: nat) returns (j: nat)
    requires Outcomes(trace, p) && k < |trace| && TopRunner(c, p)(trace[k])
    requires k + SliceFn(c)(trace[k]) < |trace|
    ensures k < j <= k + SliceFn(c)(trace[k]) && SwitchFn(c, p)(trace[k], trace[j])
  {
    TicksAdvance(trace, c, p);
    TicksLookBack(trace, c, p);
    j := SwitchComes(trace, k, TopRunner(c, p), SliceFn(c), SwitchFn(c, p));
  }

  // ---------------------------------------------------------------- bounded waiting

  /** The quanta of the tasks in `q`, added up. */
  function Work(tasks: map<nat, Task>, q: seq<nat>): nat
    requires forall t | t in q :: t in tasks
  {
    if q == [] then 0 else Quantum(tasks[q[0]]) + Work(tasks, q[1..])
  }

  lemma {:induction false} SameWork(a: map<nat, Task>, b: map<nat, Task>, q: seq<nat>)
    requires forall t | t in q :: t in a && t in b && a[t].timeSlice == b[t].timeSlice
    ensures Work(a, q) == Work(b, q)
  {
    if q != [] { SameWork(a, b, q[1..]); }
  }

  lemma WaitingKnown(s: Sched, p: nat)
    requires Wf(s)
    ensures forall t | t in Waiting(s, p) :: t in s.tasks && t in s.queue && s.current != Some(t)
  {
    forall t | t in Waiting(s, p)
      ensures t in s.tasks && t in s.queue && s.current != Some(t)
    {
      AtRankMembers(Ranks(s), s.queue, p, t);
    }
  }

  /** After a switch the first waiting task runs, and the others wait in the same order. */
  lemma WaitingAfter(s: Sched, s1: Sched, c: nat, p: nat)
    requires Known(s) && s.current == Some(c) && Switched(s, s1, c, p) && Waiting(s, p) != []
    ensures s1.current == Some(Waiting(s, p)[0]) && RunsTop(s1, Waiting(s, p)[0], p)
    ensures Waiting(s, p)[1..] <= Waiting(s1, p)
  {
    CurrentHeadsRing(s1, p);
    RingTail(s1, p);
    if CurrentAt(s, p) {
      RingTail(s, p);
      assert Ring(s1, p) == Waiting(s, p) + [c];
      assert Waiting(s1, p) == Waiting(s, p)[1..] + [c];
    } else {
      assert Ring(s1, p) == Waiting(s, p);
    }
  }

  lemma RingTail(s: Sched, p: nat)
    requires Known(s) && CurrentAt(s, p)
    ensures Ring(s, p) != [] && Ring(s, p)[1..] == Waiting(s, p)
  {
  }

  /** The ticks before the task at place `r` of the waiting ones of rank `p` runs: at most the quantum of the current
      task and those of the tasks ahead of it. */
  function WaitBound(s: Sched, p: nat, r: nat): nat
    requires Wf(s) && s.current.Some? && r < |Waiting(s, p)|
  {
    WaitingKnown(s, p);
    SliceOf(s, s.current.value) + Work(s.tasks, Waiting(s, p)[..r])
  }

  lemma WaitingShifts(w: seq<nat>, w1: seq<nat>, r: nat)
    requires 1 <= r < |w| && w[1..] <= w1
    ensures r - 1 < |w1| && w1[r - 1] == w[r] && w1[..r - 1] == w[..r][1..]
  {
    assert w1[..|w| - 1] == w[1..];
    assert w1[..r - 1] == w1[..|w| - 1][..r - 1];
    assert w[..r][1..] == w[1..][..r - 1];
  }

  /** The bound left after a switch is the part of the tasks ahead. */
  lemma BoundAfter(s: Sched, s1: Sched, c: nat, p: nat, r: nat)
    requires RunsTop(s, c, p) && SwitchedFrom(s, s1, c, p) && 1 <= r < |Waiting(s, p)|
    requires RunsTop(s1, Waiting(s, p)[0], p) && Waiting(s, p)[1..] <= Waiting(s1, p)
    ensures r - 1 < |Waiting(s1, p)| && Waiting(s1, p)[r - 1] == Waiting(s, p)[r]
    ensures WaitBound(s, p, r) == SliceOf(s, c) + WaitBound(s1, p, r - 1)
  {
    WaitingShifts(Waiting(s, p), Waiting(s1, p), r);
    WaitingKnown(s, p);
    WaitingKnown(s1, p);
    WorkAfter(s, s1, c, Waiting(s, p), r);
  }

  lemma WorkAfter(s: Sched, s1: Sched, c: nat, w: seq<nat>, r: nat)
    requires 1 <= r <= |w| && (forall t | t in w :: t in s.tasks && t != c)
    requires s1.tasks.Keys == s.tasks.Keys
    requires forall t | t in s.tasks && t != c :: s1.tasks[t].timeSlice == s.tasks[t].timeSlice
    ensures Work(s.tasks, w[..r]) == SliceOf(s1, w[0]) + Work(s1.tasks, w[..r][1..])
  {
    assert w[0] in w;
    assert forall t | t in w[..r][1..] :: t in w;
    SameWork(s.tasks, s1.tasks, w[..r][1..]);
  }

  lemma AfterSwitch(s: Sched, s1: Sched, c: nat, p: nat, r: nat)
    requires RunsTop(s, c, p) && SwitchedFrom(s, s1, c, p) && r < |Waiting(s, p)|
    ensures RunsTop(s1, Waiting(s, p)[0], p) && SliceOf(s, c) <= WaitBound(s, p, r)
    ensures r > 0 ==> r - 1 < |Waiting(s1, p)| && Waiting(s1, p)[r - 1] == Waiting(s, p)[r]
    ensures r > 0 ==> SliceOf(s, c) + WaitBound(s1, p, r - 1) == WaitBound(s, p, r)
  {
    WaitingAfter(s, s1, c, p);
    if r > 0 { BoundAfter(s, s1, c, p, r); }
  }

  /** Task `t` is at place `r` of the waiting tasks of the highest rank `p`. */
  predicate WaitsAt(s: Sched, p: nat, t: nat, r: nat) {
    s.current.Some? && RunsTop(s, s.current.value, p) && r < |Waiting(s, p)| && Waiting(s, p)[r] == t
  }

  function BoundAt(s: Sched, p: nat, t: nat, r: nat): nat { if WaitsAt(s, p, t, r) then WaitBound(s, p, r) else 0 }

  function WaitsFn(p: nat, t: nat): (Sched, nat) -> bool { (s: Sched, r: nat) => WaitsAt(s, p, t, r) }

  function BoundFn(p: nat, t: nat): (Sched, nat) -> nat { (s: Sched, r: nat) => BoundAt(s, p, t, r) }

  lemma RunnerOf(s: Sched, p: nat, t: nat, r: nat) returns (c: nat)
    requires WaitsFn(p, t)(s, r)
    ensures TopRunner(c, p)(s) && SliceFn(c)(s) <= BoundFn(p, t)(s, r)
  {
    c := s.current.value;
  }

  lemma FirstWaitingRuns(s: Sched, s1: Sched, c: nat, p: nat, t: nat)
    requires WaitsAt(s, p, t, 0) && RunsTop(s, c, p) && SwitchedFrom(s, s1, c, p)
    ensures s1.current == Some(t)
  {
    WaitingAfter(s, s1, c, p);
  }

  lemma NextWaiting(s: Sched, s1: Sched, c: nat, p: nat, t: nat, r: nat)
    requires r > 0 && WaitsAt(s, p, t, r) && RunsTop(s, c, p) && SwitchedFrom(s, s1, c, p)
    ensures WaitsAt(s1, p, t, r - 1) && SliceOf(s, c) + BoundAt(s1, p, t, r - 1) == BoundAt(s, p, t, r)
  {
    AfterSwitch(s, s1, c, p, r);
  }

  lemma MovesUp(s: Sched, s1: Sched, c: nat, p: nat, t: nat, r: nat)
    requires WaitsFn(p, t)(s, r) && TopRunner(c, p)(s) && SwitchFn(c, p)(s, s1)
    ensures r == 0 ==> s1.current == Some(t)
    ensures r > 0 ==> WaitsFn(p, t)(s1, r - 1) && SliceFn(c)(s) + BoundFn(p, t)(s1, r - 1) == BoundFn(p, t)(s, r)
  {
    if r == 0 {
      FirstWaitingRuns(s, s1, c, p, t);
    } else {
      NextWaiting(s, s1, c, p, t, r);
    }
  }

  lemma FirstSwitch(trace: seq<Sched>, k: nat, p: nat, t: nat, r: nat) returns (j: nat)
    requires Outcomes(trace, p) && k < |trace| && WaitsFn(p, t)(trace[k], r) && k + BoundFn(p, t)(trace[k], r) < |trace|
    ensures k < j <= k + BoundFn(p, t)(trace[k], r)
    ensures r == 0 ==> trace[j].current == Some(t)
    ensures r > 0 ==> WaitsFn(p, t)(trace[j], r - 1)
    ensures r > 0 ==> j + BoundFn(p, t)(trace[j], r - 1) <= k + BoundFn(p, t)(trace[k], r)
  {
    var c := RunnerOf(trace[k], p, t, r);
    j := QuantumEnds(trace, k, c, p);
    MovesUp(trace[k], trace[j], c, p, t, r);
  }

  lemma {:induction false} WaitEnds(trace: seq<Sched>, k: nat, p: nat, t: nat, r: nat) returns (j: nat)
    requires Outcomes(trace, p) && k < |trace| && WaitsFn(p, t)(trace[k], r) && k + BoundFn(p, t)(trace[k], r) < |trace|
    ensures k < j <= k + BoundFn(p, t)(trace[k], r) && trace[j].current == Some(t)
    decreases r
  {
    j := FirstSwitch(trace, k, p, t, r);
    if r > 0 { j := WaitEnds(trace, j, p, t, r - 1); }
  }

  /** Driven by ticks alone, the task at place `r` of the waiting ones of the highest priority runs within the quanta of
      the current task and of those ahead of it. */
  lemma BoundedWait(trace: seq<Sched>, c: nat, p: nat, r: nat) returns (j: nat)
    requires OnlyTicks(trace) && |trace| > 0 && RunsTop(trace[0], c, p) && r < |Waiting(trace[0], p)|
    requires WaitBound(trace[0], p, r) < |trace|
    ensures 0 < j <= WaitBound(trace[0], p, r) && trace[j].current == Some(Waiting(trace[0], p)[r])
  {
    TicksHaveOutcomes(trace, p);
    j := WaitEnds(trace, 0, p, Waiting(trace[0], p)[r], r);
  }
}
