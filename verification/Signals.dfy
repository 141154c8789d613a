/** Signal masks of src/sched/task.rs: 32-bit words that stand for sets of signal numbers below 32. */
module Signals {
  import opened Kernel
  import opened Bits

  const SIGKILL: nat := 9
  const SIGCONT: nat := 18
  const SIGTSTP: nat := 20

  /** A `u32`. */
  type Mask = m: nat | m < 0x1_0000_0000

  /** The signals a mask holds. */
  function SetOf(m: nat): set<nat> { set i: nat | 0 <= i < 32 && Bit(m, i) }

  /** `1 << signal` */
  lemma ShiftFits(signal: nat)
    requires signal < 32
    ensures Shl(1, signal) == Pow2(signal) < 0x1_0000_0000
  {
    HalfWord();
    Pow2Monotone(signal, 31);
    assert Pow2(32) == 2 * Pow2(31);
  }

  // ---------------------------------------------------------------- send_signal

  /** `send_signal` */
  function Send(pending: Mask, signal: nat): (r: Mask) {
    if signal < 32 then
      ShiftFits(signal);
      HalfWord();
      OrBound(pending, Shl(1, signal), 32);
      Or(pending, Shl(1, signal))
    else pending
  }

  /** `send_signal` inserts a signal below 32 and ignores any other number. */
  lemma SendIsInsert(pending: Mask, signal: nat)
    ensures SetOf(Send(pending, signal)) == SetOf(pending) + if signal < 32 then {signal} else {}
  {
    if signal < 32 {
      ShiftFits(signal);
      forall i: nat
        ensures Bit(Send(pending, signal), i) <==> Bit(pending, i) || i == signal
      {
        BitOr(pending, Pow2(signal), i);
        BitPow2(signal, i);
      }
    }
  }

  // ---------------------------------------------------------------- pop_signal

  /** `trailing_zeros` of a word that is not zero */
  function TrailingZeros(x: nat): nat
    requires x > 0
  {
    if x % 2 == 1 then 0 else 1 + TrailingZeros(x / 2)
  }

  /** The lowest set bit. */
  lemma {:induction false} TrailingZerosMeaning(x: nat, j: nat)
    requires x > 0
    ensures Bit(x, TrailingZeros(x))
    ensures j < TrailingZeros(x) ==> !Bit(x, j)
    decreases x
  {
    if x % 2 == 0 { TrailingZerosMeaning(x / 2, if j > 0 then j - 1 else 0); }
  }

  /** `pending & !blocked` */
  function Deliverable(pending: Mask, blocked: Mask): (r: Mask) {
    HalfWord();
    AndAtMost(pending, Not(blocked, 32));
    And(pending, Not(blocked, 32))
  }

  lemma DeliverableIsDifference(pending: Mask, blocked: Mask)
    ensures SetOf(Deliverable(pending, blocked)) == SetOf(pending) - SetOf(blocked)
  {
    HalfWord();
    forall i: nat | i < 32
      ensures Bit(Deliverable(pending, blocked), i) <==> Bit(pending, i) && !Bit(blocked, i)
    {
      BitAnd(pending, Not(blocked, 32), i);
      BitNot(blocked, 32, i);
    }
  }

  /** A mask is zero exactly when it holds no signal. */
  lemma EmptyMask(m: Mask)
    ensures m == 0 <==> SetOf(m) == {}
  {
    if m == 0 {
      forall i: nat { BitZero(i); }
    } else {
      LowestSignal(m);
      assert TrailingZeros(m) in SetOf(m);
    }
  }

  lemma LowestSignal(m: Mask)
    requires m > 0
    ensures TrailingZeros(m) < 32 && Bit(m, TrailingZeros(m))
    ensures forall j: nat | j < TrailingZeros(m) :: !Bit(m, j)
  {
    forall j: nat
      ensures Bit(m, TrailingZeros(m)) && (j < TrailingZeros(m) ==> !Bit(m, j))
    {
      TrailingZerosMeaning(m, j);
    }
    TrailingZerosMeaning(m, 0);
    HalfWord();
    if TrailingZeros(m) >= 32 { BitBound(m, 32, TrailingZeros(m)); }
  }

  /** `x & !(1 << signal)` */
  function Cleared(pending: Mask, signal: nat): (r: Mask)
    requires signal < 32
  {
    ShiftFits(signal);
    HalfWord();
    AndAtMost(pending, Not(Shl(1, signal), 32));
    And(pending, Not(Shl(1, signal), 32))
  }

  lemma ClearedIsRemove(pending: Mask, signal: nat)
    requires signal < 32
    ensures SetOf(Cleared(pending, signal)) == SetOf(pending) - {signal}
  {
    ShiftFits(signal);
    HalfWord();
    forall i: nat | i < 32
      ensures Bit(Cleared(pending, signal), i) <==> Bit(pending, i) && i != signal
    {
      BitAnd(pending, Not(Pow2(signal), 32), i);
      BitNot(Pow2(signal), 32, i);
      BitPow2(signal, i);
    }
  }

  /** `pop_signal`: the signal, if any, and the pending mask left */
  function Pop(pending: Mask, blocked: Mask): (r: (Option<nat>, Mask))
    ensures r.0.Some? ==> r.0.value < 32
  {
    var d := Deliverable(pending, blocked);
    if d == 0 then (None, pending)
    else
      LowestSignal(d);
      (Some(TrailingZeros(d)), Cleared(pending, TrailingZeros(d)))
  }

  predicate IsLeast(s: set<nat>, x: nat) { x in s && forall y | y in s :: x <= y }

  /** `pop_signal` takes the least pending signal that is not blocked, or nothing when there is none. */
  lemma PopIsRemoveLeast(pending: Mask, blocked: Mask)
    ensures var (r, left) := Pop(pending, blocked);
      var ready := SetOf(pending) - SetOf(blocked);
      && (r.None? <==> ready == {})
      && (r.None? ==> left == pending)
      && (r.Some? ==> IsLeast(ready, r.value) && SetOf(left) == SetOf(pending) - {r.value})
  {
    var d := Deliverable(pending, blocked);
    DeliverableIsDifference(pending, blocked);
    EmptyMask(d);
    if d != 0 {
      LowestSignal(d);
      ClearedIsRemove(pending, TrailingZeros(d));
    }
  }

  /** A signal raised on an empty mask is popped, and leaves it empty. */
  lemma PopOnly(signal: nat)
    requires signal < 32
    ensures Send(0, signal) != 0 && Pop(Send(0, signal), 0) == (Some(signal), 0)
  {
    var m := Send(0, signal);
    SendIsInsert(0, signal);
    EmptyMask(0);
    EmptyMask(m);
    assert SetOf(m) - SetOf(0) == {signal};
    PopIsRemoveLeast(m, 0);
    EmptyMask(Pop(m, 0).1);
  }

  // ---------------------------------------------------------------- runs

  datatype Op = Raise(signal: nat) | Take

  function Step(pending: Mask, blocked: Mask, op: Op): (Mask, Option<nat>) {
    match op
    case Raise(signal) => (Send(pending, signal), None)
    case Take => (Pop(pending, blocked).1, Pop(pending, blocked).0)
  }

  /** The reference: a set of signals, from which the least unblocked one is taken. */
  ghost predicate RefStep(s: set<nat>, blocked: set<nat>, op: Op, s1: set<nat>, answer: Option<nat>) {
    match op
    case Raise(signal) => s1 == s + (if signal < 32 then {signal} else {}) && answer == None
    case Take =>
      if s - blocked == {} then s1 == s && answer == None
      else answer.Some? && IsLeast(s - blocked, answer.value) && s1 == s - {answer.value}
  }

  lemma StepRefines(pending: Mask, blocked: Mask, op: Op)
    ensures RefStep(SetOf(pending), SetOf(blocked), op,
                    SetOf(Step(pending, blocked, op).0), Step(pending, blocked, op).1)
  {
    match op {
      case Raise(signal) => SendIsInsert(pending, signal);
      case Take => PopIsRemoveLeast(pending, blocked);
    }
  }

  /** The operations in order: the mask left and the answers. */
  function Run(pending: Mask, blocked: Mask, ops: seq<Op>): (Mask, seq<Option<nat>>)
    decreases |ops|
  {
    if ops == [] then (pending, [])
    else
      var (next, answer) := Step(pending, blocked, ops[0]);
      var (left, rest) := Run(next, blocked, ops[1..]);
      (left, [answer] + rest)
  }

  /** The reference goes from `s` to `end` through the operations with these answers. */
  ghost predicate RefRun(
    s: set<nat>, blocked: set<nat>, ops: seq<Op>, end: set<nat>, answers: seq<Option<nat>>)
    decreases |ops|
  {
    if ops == [] then end == s && answers == []
    else
      answers != [] && exists next: set<nat> ::
        RefStep(s, blocked, ops[0], next, answers[0]) && RefRun(next, blocked, ops[1..], end, answers[1..])
  }

  /** Any interleaving of `send_signal` and `pop_signal` is insertion and removal of the least on a set, with the same
      answers and the same set left. */
  lemma {:induction false} RunRefines(pending: Mask, blocked: Mask, ops: seq<Op>)
    ensures RefRun(SetOf(pending), SetOf(blocked), ops,
                   SetOf(Run(pending, blocked, ops).0), Run(pending, blocked, ops).1)
    decreases |ops|
  {
    if ops != [] {
      var (next, answer) := Step(pending, blocked, ops[0]);
      StepRefines(pending, blocked, ops[0]);
      RunRefines(next, blocked, ops[1..]);
      var answers := Run(pending, blocked, ops).1;
      assert answers[0] == answer && answers[1..] == Run(next, blocked, ops[1..]).1;
      assert RefStep(SetOf(pending), SetOf(blocked), ops[0], SetOf(next), answers[0]);
    }
  }

  /** The answers and the set left are the only ones the reference has. */
  lemma {:induction false} RefRunUnique(
    s: set<nat>, blocked: set<nat>, ops: seq<Op>, end1: set<nat>, answers1: seq<Option<nat>>, end2: set<nat>,
    answers2: seq<Option<nat>>)
    requires RefRun(s, blocked, ops, end1, answers1) && RefRun(s, blocked, ops, end2, answers2)
    ensures end1 == end2 && answers1 == answers2
    decreases |ops|
  {
    if ops != [] {
      var next1 :|
        RefStep(s, blocked, ops[0], next1, answers1[0]) && RefRun(next1, blocked, ops[1..], end1, answers1[1..]);
      var next2 :|
        RefStep(s, blocked, ops[0], next2, answers2[0]) && RefRun(next2, blocked, ops[1..], end2, answers2[1..]);
      RefRunUnique(next1, blocked, ops[1..], end1, answers1[1..], end2, answers2[1..]);
      assert answers1 == [answers1[0]] + answers1[1..] && answers2 == [answers2[0]] + answers2[1..];
    }
  }

  /** Popping until nothing is left. */
  function Drain(pending: Mask, blocked: Mask): (seq<nat>, Mask)
    decreases |SetOf(pending) - SetOf(blocked)|
  {
    PopIsRemoveLeast(pending, blocked);
    var (r, left) := Pop(pending, blocked);
    if r.None? then ([], pending)
    else
      PopShrinks(pending, blocked);
      var (rest, end) := Drain(left, blocked);
      ([r.value] + rest, end)
  }

  lemma PopShrinks(pending: Mask, blocked: Mask)
    ensures var (r, left) := Pop(pending, blocked);
      r.Some? ==> |SetOf(left) - SetOf(blocked)| < |SetOf(pending) - SetOf(blocked)|
  {
    PopIsRemoveLeast(pending, blocked);
    var (r, left) := Pop(pending, blocked);
    if r.Some? {
      assert SetOf(pending) - SetOf(blocked) == (SetOf(left) - SetOf(blocked)) + {r.value};
    }
  }

  predicate Ascending(q: seq<nat>) { forall i, j | 0 <= i < j < |q| :: q[i] < q[j] }

  function Elements(q: seq<nat>): set<nat> { set x | x in q }

  lemma AscendingCons(x: nat, rest: seq<nat>, s: set<nat>)
    requires Ascending(rest) && Elements(rest) == s - {x} && IsLeast(s, x)
    ensures Ascending([x] + rest) && Elements([x] + rest) == s
  {
    forall y | y in rest
      ensures x < y
    {
      assert y in Elements(rest);
    }
    var q := [x] + rest;
    assert forall y :: y in q <==> y == x || y in Elements(rest);
    forall i, j | 0 <= i < j < |q|
      ensures q[i] < q[j]
    {
      assert q[j] == rest[j - 1] && rest[j - 1] in rest;
      if i > 0 { assert q[i] == rest[i - 1]; }
    }
  }

  lemma LeftAfterPop(pending: set<nat>, blocked: set<nat>, x: nat)
    requires x !in blocked
    ensures (pending - {x}) - blocked == (pending - blocked) - {x} && (pending - {x}) * blocked == pending * blocked
  {
  }

  /** Draining yields exactly the pending unblocked signals in ascending order and leaves the blocked ones. */
  lemma {:induction false} DrainMeaning(pending: Mask, blocked: Mask)
    ensures Ascending(Drain(pending, blocked).0)
    ensures Elements(Drain(pending, blocked).0) == SetOf(pending) - SetOf(blocked)
    ensures SetOf(Drain(pending, blocked).1) == SetOf(pending) * SetOf(blocked)
    decreases |SetOf(pending) - SetOf(blocked)|
  {
    PopIsRemoveLeast(pending, blocked);
    PopShrinks(pending, blocked);
    var (r, next) := Pop(pending, blocked);
    if r.None? {
      assert forall x | x in SetOf(pending) :: x in SetOf(pending) - SetOf(blocked) || x in SetOf(blocked);
      assert SetOf(pending) == SetOf(pending) * SetOf(blocked);
    } else {
      DrainMeaning(next, blocked);
      LeftAfterPop(SetOf(pending), SetOf(blocked), r.value);
      AscendingCons(r.value, Drain(next, blocked).0, SetOf(pending) - SetOf(blocked));
    }
  }
}
