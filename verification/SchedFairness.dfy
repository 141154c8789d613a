/** Priority round-robin of src/sched/scheduler.rs: the tasks of the highest priority take turns in a fixed order. */
module SchedFairness {
  import opened Kernel
  import opened Bits
  import opened Sched
  import opened SchedInvariant

  /** The rank of every task's priority. */
  function Ranks(s: Sched): map<nat, nat> { map t | t in s.tasks :: Rank(s.tasks[t].priority) }

  /** The elements of `q` of rank `p`, in order. */
  function AtRank(ranks: map<nat, nat>, q: seq<nat>, p: nat): seq<nat>
    requires forall t | t in q :: t in ranks
  {
    if q == [] then []
    else (if ranks[q[0]] == p then [q[0]] else []) + AtRank(ranks, q[1..], p)
  }

  predicate CurrentAt(s: Sched, p: nat)
    requires Known(s)
  {
    s.current.Some? && Rank(s.tasks[s.current.value].priority) == p
  }

  /** `p` is the highest rank among the queued tasks and the current one. */
  predicate IsTop(s: Sched, p: nat)
    requires Known(s)
  {
    && (forall t | t in s.queue :: Rank(s.tasks[t].priority) <= p)
    && (s.current.Some? ==> Rank(s.tasks[s.current.value].priority) <= p)
    && (CurrentAt(s, p) || exists t :: t in s.queue && Rank(s.tasks[t].priority) == p)
  }

  /** The queued tasks of rank `p`. */
  function Waiting(s: Sched, p: nat): seq<nat>
    requires Known(s)
  {
    AtRank(Ranks(s), s.queue, p)
  }

  /** The tasks of rank `p` in the order in which they take turns, starting with the current one if it is among them. */
  function Ring(s: Sched, p: nat): seq<nat>
    requires Known(s)
  {
    (if CurrentAt(s, p) then [s.current.value] else []) + Waiting(s, p)
  }

  function Rotate(q: seq<nat>): seq<nat>
    requires q != []
  {
    q[1..] + [q[0]]
  }

  // ---------------------------------------------------------------- filtering a queue

  lemma {:induction false} AtRankAppend(ranks: map<nat, nat>, a: seq<nat>, b: seq<nat>, p: nat)
    requires forall t | t in a + b :: t in ranks
    ensures (forall t | t in a :: t in ranks) && (forall t | t in b :: t in ranks)
    ensures AtRank(ranks, a + b, p) == AtRank(ranks, a, p) + AtRank(ranks, b, p)
  {
    assert forall t | t in a :: t in a + b;
    assert forall t | t in b :: t in a + b;
    if a == [] {
      assert a + b == b;
    } else {
      assert (a + b)[1..] == a[1..] + b;
      assert forall t | t in a[1..] + b :: t in a + b;
      AtRankAppend(ranks, a[1..], b, p);
    }
  }

  lemma {:induction false} AtRankNone(ranks: map<nat, nat>, q: seq<nat>, p: nat)
    requires forall t | t in q :: t in ranks && ranks[t] != p
    ensures AtRank(ranks, q, p) == []
  {
    if q != [] { AtRankNone(ranks, q[1..], p); }
  }

  lemma {:induction false} AtRankMembers(ranks: map<nat, nat>, q: seq<nat>, p: nat, x: nat)
    requires forall t | t in q :: t in ranks
    ensures x in AtRank(ranks, q, p) <==> x in q && ranks[x] == p
  {
    if q != [] {
      assert forall t | t in q[1..] :: t in q;
      AtRankMembers(ranks, q[1..], p, x);
      assert x in q <==> x == q[0] || x in q[1..];
    }
  }

  /** Removing the first element of rank `p` takes the head off the filtered queue. */
  lemma AtRankRemoveFirst(ranks: map<nat, nat>, q: seq<nat>, b: nat, p: nat)
    requires forall t | t in q :: t in ranks
    requires b < |q| && ranks[q[b]] == p && forall j | 0 <= j < b :: ranks[q[j]] != p
    ensures forall t | t in RemoveAt(q, b) :: t in ranks
    ensures AtRank(ranks, q, p) == [q[b]] + AtRank(ranks, RemoveAt(q, b), p)
  {
    var front, back := q[..b], q[b + 1..];
    assert q == front + ([q[b]] + back);
    assert forall t | t in front + back :: t in q;
    AtRankAppend(ranks, front, [q[b]] + back, p);
    AtRankAppend(ranks, front, back, p);
    assert ([q[b]] + back)[1..] == back;
    AtRankNone(ranks, front, p);
  }

  // ---------------------------------------------------------------- one scheduling step

  lemma DispatchRanks(s: Sched, i: nat)
    requires Known(s) && i < |s.queue|
    ensures Ranks(Dispatch(s, i)) == Ranks(s)
  {
  }

  /** The choice from a queue of ready tasks whose highest rank is `p`: the first of rank `p` runs, and those of rank
      `p` that still wait are the rest, in order. */
  lemma DispatchTop(s: Sched, p: nat)
    requires Idle(s) && s.queue != []
    requires forall t | t in s.queue :: Rank(s.tasks[t].priority) <= p
    requires exists t :: t in s.queue && Rank(s.tasks[t].priority) == p
    ensures Pick(s).Some?
    ensures var s1 := Dispatch(s, Pick(s).value);
      Wf(s1) && CurrentAt(s1, p) && Ring(s1, p) == Waiting(s, p)
  {
    IdleAllReady(s);
    PickFindsBest(s);
    IdlePick(s);
    var b := Pick(s).value;
    assert PriorityAt(s, b) == p by {
      var t :| t in s.queue && Rank(s.tasks[t].priority) == p;
      var j :| 0 <= j < |s.queue| && s.queue[j] == t;
      assert PriorityAt(s, j) == p;
      assert s.queue[b] in s.queue;
    }
    DispatchRanks(s, b);
    FirstOfRank(s, b, p);
    AtRankRemoveFirst(Ranks(s), s.queue, b, p);
  }

  lemma FirstOfRank(s: Sched, b: nat, p: nat)
    requires Known(s) && IsFirstBest(s, b) && PriorityAt(s, b) == p
    ensures Ranks(s)[s.queue[b]] == p && forall j | 0 <= j < b :: Ranks(s)[s.queue[j]] != p
  {
    forall j | 0 <= j < b
      ensures Ranks(s)[s.queue[j]] != p
    {
      assert PriorityAt(s, j) < PriorityAt(s, b);
    }
  }

  /** What a scheduling step does: if the current task is of the highest rank the ring turns by one, otherwise its first
      task starts; either way the first of the new ring runs. */
  predicate Turned(s: Sched, s1: Sched, p: nat)
    requires Known(s)
  {
    && Wf(s1) && IsTop(s1, p) && CurrentAt(s1, p)
    && Ring(s, p) != []
    && Ring(s1, p) == if CurrentAt(s, p) then Rotate(Ring(s, p)) else Ring(s, p)
  }

  lemma TopAfterDispatch(s: Sched, i: nat, p: nat)
    requires Known(s) && i < |s.queue| && NoDuplicates(s.queue)
    requires forall t | t in s.queue :: Rank(s.tasks[t].priority) <= p
    ensures forall t | t in Dispatch(s, i).queue :: Rank(Dispatch(s, i).tasks[t].priority) <= p
    ensures Rank(Dispatch(s, i).tasks[Dispatch(s, i).current.value].priority) <= p
  {
    assert s.queue[i] in s.queue;
    forall t | t in RemoveAt(s.queue, i) { RemoveAtMeaning(s.queue, i, t); }
  }

  lemma RingNotEmpty(s: Sched, p: nat)
    requires Known(s) && IsTop(s, p)
    ensures Ring(s, p) != []
  {
    if !CurrentAt(s, p) {
      var t :| t in s.queue && Rank(s.tasks[t].priority) == p;
      AtRankMembers(Ranks(s), s.queue, p, t);
    }
  }

  /** `s1` is `s` with the current task back in the queue: a queue of ready tasks whose highest rank is `p`. */
  predicate Requeued(s: Sched, s1: Sched, p: nat)
    requires Known(s)
  {
    && Idle(s1) && s1.queue != []
    && Waiting(s1, p) == Waiting(s, p) + (if CurrentAt(s, p) then [s.current.value] else [])
    && (forall t | t in s1.queue :: Rank(s1.tasks[t].priority) <= p)
    && (exists t :: t in s1.queue && Rank(s1.tasks[t].priority) == p)
  }

  /** `d` runs the first task of rank `p` of `s1`. */
  predicate Started(s1: Sched, d: Sched, p: nat)
    requires Known(s1)
  {
    && Wf(d) && CurrentAt(d, p) && Ring(d, p) == Waiting(s1, p)
    && (forall t | t in d.queue :: Rank(d.tasks[t].priority) <= p)
  }

  lemma StartedTurns(s: Sched, s1: Sched, d: Sched, p: nat)
    requires Known(s) && IsTop(s, p) && Requeued(s, s1, p) && Started(s1, d, p)
    ensures Turned(s, d, p)
  {
    RingNotEmpty(s, p);
  }

  lemma DispatchStarts(s1: Sched, i: nat, p: nat)
    requires Idle(s1) && Pick(s1) == Some(i)
    requires forall t | t in s1.queue :: Rank(s1.tasks[t].priority) <= p
    requires exists t :: t in s1.queue && Rank(s1.tasks[t].priority) == p
    ensures Started(s1, Dispatch(s1, i), p)
  {
    DispatchTop(s1, p);
    TopAfterDispatch(s1, i, p);
  }

  lemma SameTasksStarted(s1: Sched, d: Sched, s2: Sched, p: nat)
    requires Known(s1) && Started(s1, d, p) && SameTasks(d, s2)
    ensures Started(s1, s2, p)
  {
    SameTasksSameWf(d, s2);
  }

  /** The second half of a scheduling step. */
  lemma DispatchTurns(s: Sched, s1: Sched, i: nat, s2: Sched, p: nat)
    requires Known(s) && IsTop(s, p) && Requeued(s, s1, p)
    requires Pick(s1) == Some(i) && SameTasks(Dispatch(s1, i), s2)
    ensures Turned(s, s2, p)
  {
    DispatchStarts(s1, i, p);
    SameTasksStarted(s1, Dispatch(s1, i), s2, p);
    StartedTurns(s, s1, s2, p);
  }

  /** A running current task put at the back of the queue. */
  lemma BackInQueue(s: Sched, s1: Sched, c: nat, task: Task, p: nat)
    requires Wf(s) && IsTop(s, p) && s.current == Some(c)
    requires task.state == Ready && task.priority == s.tasks[c].priority
    requires s1.tasks == s.tasks[c := task] && s1.queue == s.queue + [c] && s1.all == s.all && s1.nextId == s.nextId
    requires s1.current == s.current
    ensures Requeued(s, s1, p)
  {
    QueueTask(s, c, task, s1);
    BackWaiting(s, s1, c, task, p);
    BackTop(s, s1, c, task, p);
  }

  lemma AtRankSnoc(ranks: map<nat, nat>, q: seq<nat>, c: nat, p: nat)
    requires c in ranks && forall t | t in q :: t in ranks
    ensures forall t | t in q + [c] :: t in ranks
    ensures AtRank(ranks, q + [c], p) == AtRank(ranks, q, p) + if ranks[c] == p then [c] else []
  {
    AtRankAppend(ranks, q, [c], p);
  }

  lemma BackWaiting(s: Sched, s1: Sched, c: nat, task: Task, p: nat)
    requires Known(s) && Known(s1) && s.current == Some(c) && task.priority == s.tasks[c].priority
    requires s1.tasks == s.tasks[c := task] && s1.queue == s.queue + [c]
    ensures Waiting(s1, p) == Waiting(s, p) + if CurrentAt(s, p) then [c] else []
  {
    assert Ranks(s1) == Ranks(s);
    AtRankSnoc(Ranks(s), s.queue, c, p);
  }

  lemma BackTop(s: Sched, s1: Sched, c: nat, task: Task, p: nat)
    requires Known(s) && Known(s1) && s.current == Some(c) && task.priority == s.tasks[c].priority && IsTop(s, p)
    requires s1.tasks == s.tasks[c := task] && s1.queue == s.queue + [c]
    ensures forall t | t in s1.queue :: Rank(s1.tasks[t].priority) <= p
    ensures exists t :: t in s1.queue && Rank(s1.tasks[t].priority) == p
  {
    if CurrentAt(s, p) {
      assert c in s1.queue && Rank(s1.tasks[c].priority) == p;
    } else {
      var t :| t in s.queue && Rank(s.tasks[t].priority) == p;
      assert t in s1.queue && Rank(s1.tasks[t].priority) == p;
    }
  }

  /** Without a current task the queue is as it was. */
  lemma NothingToRequeue(s: Sched, s1: Sched, p: nat)
    requires Wf(s) && IsTop(s, p) && s.current.None? && SameTasks(s, s1)
    ensures Requeued(s, s1, p)
  {
    SameTasksSameWf(s, s1);
  }

  lemma RequeueIsRequeued(s: Sched, s0: Sched, p: nat)
    requires Wf(s) && IsTop(s, p) && s0 == s.(needReschedule := false)
    ensures Requeued(s, Requeue(s0), p)
  {
    match s.current {
      case None => NothingToRequeue(s, s0, p);
      case Some(c) => BackInQueue(s, Requeue(s0), c, Rested(s.tasks[c]).(state := Ready), p);
    }
  }

  lemma SaveIsRequeued(s: Sched, rsp: nat, p: nat)
    requires Wf(s) && IsTop(s, p)
    ensures Requeued(s, SaveCurrent(s, rsp), p)
  {
    match s.current {
      case None => NothingToRequeue(s, s, p);
      case Some(c) => BackInQueue(s, SaveCurrent(s, rsp), c, Rested(s.tasks[c]).(savedRsp := rsp, state := Ready), p);
    }
  }

  lemma ScheduleShape(s: Sched, s1: Sched, i: nat)
    requires Known(s) && s1 == Requeue(s.(needReschedule := false)) && Pick(s1) == Some(i)
    ensures SameTasks(Dispatch(s1, i), Schedule(s))
  {
  }

  /** `schedule` from a well-formed state turns the ring. */
  lemma ScheduleTurns(s: Sched, p: nat)
    requires Wf(s) && IsTop(s, p)
    ensures Turned(s, Schedule(s), p)
  {
    var s1 := Requeue(s.(needReschedule := false));
    RequeueIsRequeued(s, s.(needReschedule := false), p);
    IdlePick(s1);
    ScheduleShape(s, s1, Pick(s1).value);
    DispatchTurns(s, s1, Pick(s1).value, Schedule(s), p);
  }

  lemma PreemptShape(s: Sched, rsp: nat, s1: Sched, i: nat)
    requires Known(s) && s.preemptEnabled && s1 == SaveCurrent(s, rsp) && Pick(s1) == Some(i)
    ensures SameTasks(Dispatch(s1, i), Preempt(s, rsp).0)
  {
  }

  /** `preempt_schedule` turns the ring as `schedule` does. */
  lemma PreemptTurns(s: Sched, rsp: nat, p: nat)
    requires Wf(s) && IsTop(s, p) && s.preemptEnabled
    ensures Turned(s, Preempt(s, rsp).0, p)
  {
    var s1 := SaveCurrent(s, rsp);
    SaveIsRequeued(s, rsp, p);
    IdlePick(s1);
    PreemptShape(s, rsp, s1, Pick(s1).value);
    DispatchTurns(s, s1, Pick(s1).value, Preempt(s, rsp).0, p);
  }

  // ---------------------------------------------------------------- many steps

  /** A scheduling step: `schedule`, `yield_current`, or `preempt_schedule` with preemption on. */
  ghost predicate IsSwitch(s: Sched, s1: Sched) {
    && Known(s)
    && (s1 == Schedule(s) || s1 == Yield(s) || (s.preemptEnabled && exists rsp: nat :: s1 == Preempt(s, rsp).0))
  }

  lemma YieldTurns(s: Sched, s0: Sched, p: nat)
    requires Wf(s) && IsTop(s, p) && s0 == s.(needReschedule := true)
    ensures Turned(s, Yield(s), p)
  {
    SameTasksSameWf(s, s0);
    ScheduleTurns(s0, p);
  }

  lemma SwitchTurns(s: Sched, s1: Sched, p: nat)
    requires Wf(s) && IsTop(s, p) && IsSwitch(s, s1)
    ensures Turned(s, s1, p)
  {
    if s1 == Schedule(s) {
      ScheduleTurns(s, p);
    } else if s1 == Yield(s) {
      YieldTurns(s, s.(needReschedule := true), p);
    } else {
      var rsp: nat :| s1 == Preempt(s, rsp).0;
      PreemptTurns(s, rsp, p);
    }
  }

  /** A run of nothing but scheduling steps. */
  ghost predicate OnlySwitches(trace: seq<Sched>) {
    forall k | 0 <= k < |trace| - 1 :: IsSwitch(trace[k], trace[k + 1])
  }

  lemma {:induction false} SwitchesKeepTop(trace: seq<Sched>, p: nat, k: nat)
    requires OnlySwitches(trace) && k < |trace| && Wf(trace[0]) && IsTop(trace[0], p)
    ensures Wf(trace[k]) && IsTop(trace[k], p)
    ensures k >= 1 ==> CurrentAt(trace[k], p) && Turned(trace[k - 1], trace[k], p)
  {
    if k > 0 {
      SwitchesKeepTop(trace, p, k - 1);
      assert IsSwitch(trace[k - 1], trace[k - 1 + 1]);
      SwitchTurns(trace[k - 1], trace[k], p);
    }
  }

  lemma WrapIndex(i: nat, k: nat, n: nat)
    requires i < n && k >= 1
    ensures ((if i + 1 == n then 0 else i + 1) + k - 1) % n == (i + k) % n
  {
    if i + 1 == n {
      assert i + k == 1 * n + (k - 1);
      DivMultiple(k - 1, n, 1);
    }
  }

  lemma ModBelow(x: nat, n: nat)
    requires n > 0
    ensures x % n < n && (x < n ==> x % n == x)
  {
  }

  lemma RotateAt(q: seq<nat>, i: nat)
    requires i < |q|
    ensures |Rotate(q)| == |q| && Rotate(q)[i] == q[if i + 1 == |q| then 0 else i + 1]
  {
  }

  /** The ring after `k` turns, read through the ring at the start. */
  predicate TurnedBy(first: seq<nat>, now: seq<nat>, k: nat) {
    && |now| == |first|
    && forall i | 0 <= i < |first| :: 0 <= (i + k) % |first| < |first| && now[i] == first[(i + k) % |first|]
  }

  lemma TurnOnce(first: seq<nat>, now: seq<nat>, k: nat)
    requires k >= 1 && TurnedBy(first, now, k - 1) && now != []
    ensures TurnedBy(first, Rotate(now), k)
  {
    var n := |first|;
    forall i | 0 <= i < n
      ensures 0 <= (i + k) % n < n && Rotate(now)[i] == first[(i + k) % n]
    {
      RotateAt(now, i);
      WrapIndex(i, k, n);
      ModBelow(i + k, n);
    }
  }

  /** Every state follows from the one before by a turn of the ring. */
  ghost predicate AllTurned(trace: seq<Sched>, p: nat) {
    && (forall k | 0 <= k < |trace| :: Known(trace[k]))
    && (forall k | 0 <= k < |trace| :: CurrentAt(trace[k], p))
    && (forall k | 1 <= k < |trace| :: Turned(trace[k - 1], trace[k], p))
  }

  lemma SwitchesTurn(trace: seq<Sched>, p: nat)
    requires OnlySwitches(trace) && trace != [] && Wf(trace[0]) && IsTop(trace[0], p) && CurrentAt(trace[0], p)
    ensures AllTurned(trace, p)
  {
    forall k | 0 <= k < |trace|
      ensures Known(trace[k]) && CurrentAt(trace[k], p) && (k >= 1 ==> Turned(trace[k - 1], trace[k], p))
    {
      SwitchesKeepTop(trace, p, k);
    }
  }

  /** With a task of the highest rank running, the ring turns by one at each step. */
  lemma {:induction false} RingTurns(trace: seq<Sched>, p: nat, k: nat)
    requires AllTurned(trace, p) && k < |trace|
    ensures TurnedBy(Ring(trace[0], p), Ring(trace[k], p), k)
  {
    if k == 0 {
      forall i | 0 <= i < |Ring(trace[0], p)| { ModBelow(i, |Ring(trace[0], p)|); }
    } else {
      RingTurns(trace, p, k - 1);
      TurnRing(Ring(trace[0], p), trace[k - 1], trace[k], p, k);
    }
  }

  lemma TurnRing(first: seq<nat>, s: Sched, s1: Sched, p: nat, k: nat)
    requires k >= 1 && Known(s) && CurrentAt(s, p) && Turned(s, s1, p) && TurnedBy(first, Ring(s, p), k - 1)
    ensures TurnedBy(first, Ring(s1, p), k)
  {
    TurnOnce(first, Ring(s, p), k);
  }

  lemma CurrentHeadsRing(s: Sched, p: nat)
    requires Known(s) && CurrentAt(s, p)
    ensures Ring(s, p) != [] && s.current == Some(Ring(s, p)[0])
  {
  }

  /** Round-robin: with a task of the highest rank running, after `k` scheduling steps of any kind the task `k` places
      further round the ring runs. */
  lemma RoundRobin(trace: seq<Sched>, p: nat, k: nat)
    requires OnlySwitches(trace) && k < |trace| && Wf(trace[0]) && IsTop(trace[0], p) && CurrentAt(trace[0], p)
    ensures Ring(trace[0], p) != [] && 0 <= k % |Ring(trace[0], p)| < |Ring(trace[0], p)|
    ensures Wf(trace[k]) && trace[k].current == Some(Ring(trace[0], p)[k % |Ring(trace[0], p)|])
  {
    SwitchesKeepTop(trace, p, k);
    SwitchesTurn(trace, p);
    RingTurns(trace, p, k);
    CurrentHeadsRing(trace[0], p);
    CurrentHeadsRing(trace[k], p);
    assert Ring(trace[k], p)[0] == Ring(trace[0], p)[(0 + k) % |Ring(trace[0], p)|];
  }

  lemma RingAfterFirst(s: Sched, s1: Sched, p: nat, r: nat)
    requires Known(s) && Turned(s, s1, p) && r < |Waiting(s, p)|
    ensures r < |Ring(s1, p)| && Ring(s1, p)[r] == Waiting(s, p)[r]
  {
    if CurrentAt(s, p) {
      assert Ring(s1, p) == Waiting(s, p) + [s.current.value];
    }
  }

  lemma TailOnlySwitches(trace: seq<Sched>)
    requires OnlySwitches(trace) && |trace| >= 1
    ensures OnlySwitches(trace[1..])
  {
    forall k | 0 <= k < |trace[1..]| - 1
      ensures IsSwitch(trace[1..][k], trace[1..][k + 1])
    {
      assert IsSwitch(trace[k + 1], trace[k + 1 + 1]);
    }
  }

  /** From any well-formed state, the task of place `r` among the waiting ones of the highest priority becomes current
      at step `r + 1`. */
  lemma WaitingTaskRuns(trace: seq<Sched>, p: nat, r: nat)
    requires OnlySwitches(trace) && r + 1 < |trace| && Wf(trace[0]) && IsTop(trace[0], p) && r < |Waiting(trace[0], p)|
    ensures trace[r + 1].current == Some(Waiting(trace[0], p)[r])
  {
    SwitchesKeepTop(trace, p, 1);
    TailOnlySwitches(trace);
    RoundRobin(trace[1..], p, r);
    RingAfterFirst(trace[0], trace[1], p, r);
    ModBelow(r, |Ring(trace[1], p)|);
  }

  /** No scheduling step picks a task below the highest priority present. */
  lemma OnlyTopRuns(trace: seq<Sched>, p: nat, k: nat)
    requires OnlySwitches(trace) && 1 <= k < |trace| && Wf(trace[0]) && IsTop(trace[0], p)
    ensures Wf(trace[k]) && CurrentAt(trace[k], p)
  {
    SwitchesKeepTop(trace, p, k);
  }

  /** In a round of as many steps as the ring has tasks, each of them runs at exactly one step. */
  lemma OncePerRound(trace: seq<Sched>, p: nat, i: nat, j: nat, n: nat)
    requires OnlySwitches(trace) && j < |trace| && Wf(trace[0]) && IsTop(trace[0], p) && CurrentAt(trace[0], p)
    requires n == |Ring(trace[0], p)| && i < n && j < n
    ensures trace[j].current == Some(Ring(trace[0], p)[i]) <==> i == j
  {
    RoundRobin(trace, p, j);
    ModBelow(j, n);
    RingDistinct(trace[0], p, i, j);
  }

  lemma {:induction false} AtRankDistinct(ranks: map<nat, nat>, q: seq<nat>, p: nat)
    requires NoDuplicates(q) && forall t | t in q :: t in ranks
    ensures NoDuplicates(AtRank(ranks, q, p))
  {
    if q != [] {
      assert forall t | t in q[1..] :: t in q;
      AtRankDistinct(ranks, q[1..], p);
      var rest := AtRank(ranks, q[1..], p);
      forall k | 0 <= k < |rest|
        ensures rest[k] != q[0]
      {
        AtRankMembers(ranks, q[1..], p, rest[k]);
      }
    }
  }

  lemma RingDistinct(s: Sched, p: nat, i: nat, j: nat)
    requires Wf(s) && i < |Ring(s, p)| && j < |Ring(s, p)|
    ensures Ring(s, p)[i] == Ring(s, p)[j] <==> i == j
  {
    AtRankDistinct(Ranks(s), s.queue, p);
    if CurrentAt(s, p) {
      AtRankMembers(Ranks(s), s.queue, p, s.current.value);
    }
  }
}
