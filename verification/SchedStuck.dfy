/**
 The choice of src/sched/scheduler.rs in every state, well formed or not: which task `pick_next_task` takes, and what
 `preempt_schedule` does when it takes none.
 */
module SchedStuck {
  import opened Kernel
  import opened Sched
  import opened SchedInvariant

  predicate ReadyAt(s: Sched, i: nat)
    requires Known(s) && i < |s.queue|
  {
    s.tasks[s.queue[i]].state == Ready
  }

  /** A ready task above the lowest priority waits. */
  predicate Urgent(s: Sched)
    requires Known(s)
  {
    exists j | 0 <= j < |s.queue| :: ReadyAt(s, j) && PriorityAt(s, j) > 0
  }

  /** Place `b` holds the first ready task of the highest priority, if that is above the lowest. */
  predicate FirstUrgent(s: Sched, b: nat)
    requires Known(s)
  {
    && b < |s.queue| && ReadyAt(s, b) && PriorityAt(s, b) > 0
    && (forall j | 0 <= j < |s.queue| && ReadyAt(s, j) :: PriorityAt(s, j) <= PriorityAt(s, b))
    && (forall j | 0 <= j < b && ReadyAt(s, j) :: PriorityAt(s, j) < PriorityAt(s, b))
  }

  /** What the loop of `pick_next_task` knows after `i` tasks. */
  predicate Seen(s: Sched, i: nat, best: nat, priority: Priority)
    requires Known(s) && i <= |s.queue|
  {
    && best < |s.queue|
    && (forall j | 0 <= j < i && ReadyAt(s, j) :: PriorityAt(s, j) <= Rank(priority))
    && (if Rank(priority) == 0 then best == 0
        else
          && best < i && ReadyAt(s, best) && PriorityAt(s, best) == Rank(priority)
          && (forall j | 0 <= j < best && ReadyAt(s, j) :: PriorityAt(s, j) < Rank(priority)))
  }

  lemma {:induction false} ScanMeaning(s: Sched, i: nat, best: nat, priority: Priority)
    requires Known(s) && i <= |s.queue| && Seen(s, i, best, priority)
    ensures var b := Scan(s, i, best, priority); if Urgent(s) then FirstUrgent(s, b) else b == 0
    decreases |s.queue| - i
  {
    if i < |s.queue| {
      var task := s.tasks[s.queue[i]];
      assert PriorityAt(s, i) == Rank(task.priority);
      if task.state == Ready && Rank(task.priority) > Rank(priority) {
        ScanMeaning(s, i + 1, i, task.priority);
      } else {
        ScanMeaning(s, i + 1, best, priority);
      }
    }
  }

  lemma UrgentIsOne(s: Sched, a: nat, b: nat)
    requires Known(s) && FirstUrgent(s, a) && FirstUrgent(s, b)
    ensures a == b
  {
    assert PriorityAt(s, a) <= PriorityAt(s, b) && PriorityAt(s, b) <= PriorityAt(s, a);
  }

  /** In every state, if a ready task above the lowest priority waits, the first of the highest priority is taken;
      otherwise the first task of the queue if it is ready, and none if it is not: a ready task behind it is not
      seen. */
  lemma PickIff(s: Sched, b: nat)
    requires Known(s)
    ensures Pick(s) == Some(b) <==>
      if Urgent(s) then FirstUrgent(s, b) else b == 0 < |s.queue| && ReadyAt(s, 0)
    ensures Pick(s).None? <==> !Urgent(s) && (s.queue == [] || !ReadyAt(s, 0))
  {
    if s.queue != [] {
      ScanMeaning(s, 0, 0, Low);
      if Urgent(s) && FirstUrgent(s, b) { UrgentIsOne(s, b, Pick(s).value); }
    }
  }

  // ---------------------------------------------------------------- preempt_schedule

  /** The task at place `j` is ready, or will be once the current task is put back. */
  predicate Waits(s: Sched, j: nat)
    requires Known(s) && j < |s.queue|
  {
    ReadyAt(s, j) || s.current == Some(s.queue[j])
  }

  /** With the current task put back, none can be taken: all that are ready have the lowest priority, and the first of
      the queue is not. */
  predicate Stuck(s: Sched)
    requires Known(s)
  {
    && (forall j | 0 <= j < |s.queue| && Waits(s, j) :: PriorityAt(s, j) == 0)
    && (s.queue != [] ==> !Waits(s, 0))
    && (s.current.Some? ==> s.queue != [] && s.tasks[s.current.value].priority == Low)
  }

  /** What the queue looks like when the current task is put back. */
  predicate PutBack(s: Sched, c: nat, s1: Sched)
    requires Known(s)
  {
    && Known(s1) && s1.queue == s.queue + [c] && s.current == Some(c)
    && (forall j | 0 <= j < |s.queue| :: (ReadyAt(s1, j) <==> Waits(s, j)) && PriorityAt(s1, j) == PriorityAt(s, j))
    && ReadyAt(s1, |s.queue|) && PriorityAt(s1, |s.queue|) == Rank(s.tasks[c].priority)
  }

  lemma SavedPutBack(s: Sched, rsp: nat, c: nat)
    requires Known(s) && s.current == Some(c)
    ensures PutBack(s, c, SaveCurrent(s, rsp))
  {
  }

  lemma PutBackStuckIff(s: Sched, c: nat, s1: Sched)
    requires Known(s) && PutBack(s, c, s1)
    ensures Pick(s1).None? <==> Stuck(s)
  {
    PickIff(s1, 0);
    if Stuck(s) {
      forall j | 0 <= j < |s1.queue| && ReadyAt(s1, j) ensures PriorityAt(s1, j) == 0 {
        if j < |s.queue| { assert Waits(s, j) && PriorityAt(s, j) == 0; }
      }
    }
    if !Urgent(s1) {
      forall j | 0 <= j < |s.queue| && Waits(s, j) ensures PriorityAt(s, j) == 0 { assert ReadyAt(s1, j); }
      assert PriorityAt(s1, |s.queue|) == 0;
    }
  }

  lemma StuckIff(s: Sched, rsp: nat)
    requires Known(s)
    ensures Pick(SaveCurrent(s, rsp)).None? <==> Stuck(s)
  {
    match s.current
    case None =>
      PickIff(s, 0);
      assert forall j | 0 <= j < |s.queue| :: Waits(s, j) <==> ReadyAt(s, j);
    case Some(c) =>
      SavedPutBack(s, rsp, c);
      PutBackStuckIff(s, c, SaveCurrent(s, rsp));
  }

  /** What is left when no task is taken: the current one runs on with a full slice, its pointer saved, and is queued
      as well. */
  function Stays(s: Sched, rsp: nat): Sched
    requires Known(s)
  {
    match s.current
    case None => s
    case Some(c) =>
      var task := s.tasks[c];
      s.(tasks := s.tasks[c := task.(savedRsp := rsp, timeSlice := task.defaultTimeSlice, state := Running)],
         queue := s.queue + [c])
  }

  /** In every state: with preemption off `preempt_schedule` does nothing; with it on a switch is counted exactly when
      the scheduler is not stuck; and when it is, the pointer given is returned and the current task stays. */
  lemma PreemptStuck(s: Sched, rsp: nat)
    requires Known(s)
    ensures !s.preemptEnabled ==> Preempt(s, rsp) == (s, rsp)
    ensures s.preemptEnabled && !Stuck(s) ==> Preempt(s, rsp).0.switches == s.switches + 1
    ensures s.preemptEnabled && Stuck(s) ==> Preempt(s, rsp) == (Stays(s, rsp), rsp)
  {
    StuckIff(s, rsp);
    if s.preemptEnabled && Stuck(s) && s.current.Some? {
      var c, s1 := s.current.value, SaveCurrent(s, rsp);
      assert s1.tasks[c := s1.tasks[c].(state := Running)] == Stays(s, rsp).tasks;
    }
  }
}
