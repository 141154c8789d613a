/** What `retain` leaves of the lists of src/sched/scheduler.rs, and `cleanup_terminated`. */
module SchedLists {
  import opened Sched
  import Signals

  predicate CopiesOf(q: seq<nat>, r: seq<nat>, at: seq<nat>) {
    |at| == |r| && forall i | 0 <= i < |r| :: at[i] < |q| && q[at[i]] == r[i]
  }

  /** `r` holds, in their order, the elements of `q` at the positions `at`: those that are not dropped. */
  predicate KeptAt(q: seq<nat>, r: seq<nat>, dropped: set<nat>, at: seq<nat>) {
    && Signals.Ascending(at) && CopiesOf(q, r, at)
    && forall j | 0 <= j < |q| :: j in at <==> q[j] !in dropped
  }

  ghost predicate KeptInOrder(q: seq<nat>, r: seq<nat>, dropped: set<nat>) { exists at :: KeptAt(q, r, dropped, at) }

  function Filtered(q: seq<nat>, dropped: set<nat>): seq<nat> {
    if q == [] then [] else (if q[0] in dropped then [] else [q[0]]) + Filtered(q[1..], dropped)
  }

  function Later(at: seq<nat>): (r: seq<nat>)
    ensures |r| == |at| && forall i | 0 <= i < |at| :: r[i] == at[i] + 1
  {
    seq(|at|, i requires 0 <= i < |at| => at[i] + 1)
  }

  lemma LaterMembers(at: seq<nat>, j: nat)
    ensures 0 !in Later(at) && (j + 1 in Later(at) <==> j in at)
  {
    if j in at {
      var i :| 0 <= i < |at| && at[i] == j;
      assert Later(at)[i] == j + 1;
    }
  }

  lemma LaterAscending(at: seq<nat>)
    requires Signals.Ascending(at)
    ensures Signals.Ascending(Later(at)) && Signals.Ascending([0] + Later(at))
  {
  }

  lemma LaterCopies(q: seq<nat>, r: seq<nat>, at: seq<nat>)
    requires q != [] && CopiesOf(q[1..], r, at)
    ensures CopiesOf(q, r, Later(at)) && CopiesOf(q, [q[0]] + r, [0] + Later(at))
  {
    forall i | 0 <= i < |r| ensures Later(at)[i] < |q| && q[Later(at)[i]] == r[i] {
      assert q[1..][at[i]] == q[at[i] + 1];
    }
  }

  lemma DropFirst(q: seq<nat>, r: seq<nat>, dropped: set<nat>, at: seq<nat>)
    requires q != [] && KeptAt(q[1..], r, dropped, at) && q[0] in dropped
    ensures KeptAt(q, r, dropped, Later(at))
  {
    LaterAscending(at);
    LaterCopies(q, r, at);
    forall j | 0 <= j < |q| ensures j in Later(at) <==> q[j] !in dropped {
      LaterMembers(at, if j > 0 then j - 1 else 0);
      if j > 0 { assert q[1..][j - 1] == q[j]; }
    }
  }

  lemma KeepFirst(q: seq<nat>, r: seq<nat>, dropped: set<nat>, at: seq<nat>)
    requires q != [] && KeptAt(q[1..], r, dropped, at) && q[0] !in dropped
    ensures KeptAt(q, [q[0]] + r, dropped, [0] + Later(at))
  {
    LaterAscending(at);
    LaterCopies(q, r, at);
    forall j | 0 <= j < |q| ensures j in [0] + Later(at) <==> q[j] !in dropped {
      if j > 0 {
        LaterMembers(at, j - 1);
        assert q[1..][j - 1] == q[j];
      }
    }
  }

  lemma {:induction false} FilteredKept(q: seq<nat>, dropped: set<nat>)
    ensures KeptInOrder(q, Filtered(q, dropped), dropped)
  {
    if q == [] {
      assert KeptAt(q, [], dropped, []);
    } else {
      FilteredKept(q[1..], dropped);
      var at :| KeptAt(q[1..], Filtered(q[1..], dropped), dropped, at);
      if q[0] in dropped {
        DropFirst(q, Filtered(q[1..], dropped), dropped, at);
        assert Filtered(q, dropped) == Filtered(q[1..], dropped);
      } else {
        KeepFirst(q, Filtered(q[1..], dropped), dropped, at);
      }
    }
  }

  lemma {:induction false} WithoutFiltered(q: seq<nat>, id: nat, dropped: set<nat>)
    ensures Filtered(Without(q, id), dropped) == Filtered(q, dropped + {id})
  {
    if q != [] {
      WithoutFiltered(q[1..], id, dropped);
      if q[0] == id {
        assert Without(q, id) == Without(q[1..], id);
      } else {
        assert Without(q, id)[1..] == Without(q[1..], id);
      }
    }
  }

  lemma {:induction false} FilteredNothing(q: seq<nat>)
    ensures Filtered(q, {}) == q
  {
    if q != [] { FilteredNothing(q[1..]); }
  }

  /** Leaving out one id keeps the order of the others. */
  lemma WithoutKept(q: seq<nat>, id: nat)
    ensures KeptInOrder(q, Without(q, id), {id})
  {
    WithoutFiltered(q, id, {});
    FilteredNothing(Without(q, id));
    assert {} + {id} == {id};
    FilteredKept(q, {id});
  }

  lemma {:induction false} WithoutAllFiltered(q: seq<nat>, dead: seq<nat>)
    ensures WithoutAll(q, dead) == Filtered(q, Signals.Elements(dead))
    decreases |dead|
  {
    if dead == [] {
      assert Signals.Elements(dead) == {};
      FilteredNothing(q);
    } else {
      WithoutAllFiltered(Without(q, dead[0]), dead[1..]);
      WithoutFiltered(q, dead[0], Signals.Elements(dead[1..]));
      assert Signals.Elements(dead) == Signals.Elements(dead[1..]) + {dead[0]};
    }
  }

  /** The listed tasks that are terminated. */
  function Finished(s: Sched): set<nat>
    requires Known(s)
  {
    set t | t in s.all && s.tasks[t].state == Terminated
  }

  /** `cleanup_terminated` takes exactly the listed tasks that are terminated off both lists, keeps the order of the
      others, and changes nothing else. */
  lemma CleanupMeaning(s: Sched)
    requires Known(s)
    ensures var r := Cleanup(s);
      && (forall t :: t in r.all <==> t in s.all && s.tasks[t].state != Terminated)
      && (forall t :: t in r.queue <==> t in s.queue && !(t in s.all && s.tasks[t].state == Terminated))
      && KeptInOrder(s.all, r.all, Finished(s)) && KeptInOrder(s.queue, r.queue, Finished(s))
      && r.tasks == s.tasks && r.current == s.current && r.nextId == s.nextId && r.ticks == s.ticks
      && r.switches == s.switches && r.needReschedule == s.needReschedule && r.preemptEnabled == s.preemptEnabled
  {
    var dead := TerminatedIn(s.tasks, s.all);
    forall t { WithoutAllMeaning(s.all, dead, t); }
    forall t { WithoutAllMeaning(s.queue, dead, t); }
    assert Signals.Elements(dead) == Finished(s);
    WithoutAllFiltered(s.all, dead);
    WithoutAllFiltered(s.queue, dead);
    FilteredKept(s.all, Finished(s));
    FilteredKept(s.queue, Finished(s));
  }
}
